/** The lines a scanner accepts are exactly the lines of a grammar: tokens in
    any spelling, with white space around them and a line break at the end. */
module Grammar {
  import opened Bytes
  import opened Scanner
  import opened Printer
  import opened Accepted
  import Decimal
  import Marker
  import RoundTrip

  /** A token that does not carry on past its physical line. */
  predicate Inline(w: Written) {
    w.token.String? ==> w.text == Enquote(w.token.octets)
  }

  predicate AllInline(line: seq<Written>) {
    forall i :: 0 <= i < |line| ==> Inline(line[i])
  }

  // -------------------------------------------------------------------------
  // One physical line
  // -------------------------------------------------------------------------

  lemma {:induction false} LexBlank(gap: bytes, rest: bytes)
    requires Blank(gap)
    ensures Lex(gap + rest) == Lex(rest)
  {
    hide Unquote, LiteralSize, AtomLength;
    if gap == [] {
      assert gap + rest == rest;
    } else {
      assert (gap + rest)[1..] == gap[1..] + rest;
      LexBlank(gap[1..], rest);
    }
  }

  lemma LexWritten(w: Written, rest: bytes)
    requires Blank(w.gap) && Spells(w.text, w.token) && Inline(w)
    requires w.token.Atom? ==> rest == [] || IsAtomSpecial(rest[0])
    ensures Lex(w.gap + w.text + rest) == PrependTokens([w.token], Lex(rest))
  {
    hide Unquote, LiteralSize, AtomLength, Enquote, Blank, IsAtomSpecial;
    var text := w.text + rest;
    assert w.gap + w.text + rest == w.gap + text;
    LexBlank(w.gap, text);
    match w.token
    case Atom(octets) => RoundTrip.LexWord(octets, rest);
    case String(octets) => RoundTrip.LexQuotedText(octets, rest);
    case Open => assert text[1..] == rest;
    case Close => assert text[1..] == rest;
  }

  /** Whether `rest` can follow a line without extending a final atom. */
  predicate Ends(line: seq<Written>, rest: bytes) {
    line != [] && line[|line| - 1].token.Atom? ==> rest == [] || IsAtomSpecial(rest[0])
  }

  lemma BlankSeparates(gap: bytes)
    requires Blank(gap) && gap != []
    ensures IsAtomSpecial(gap[0])
  {
  }

  /** What follows the first token keeps an atom from growing. */
  lemma NextSeparates(line: seq<Written>, rest: bytes)
    requires line != [] && Spelt(line) && Separate(line) && AllInline(line) && line[0].token.Atom? && Ends(line, rest)
    ensures var after := Spelling(line[1..]) + rest; after == [] || IsAtomSpecial(after[0])
  {
    hide Escape, IsAtomSpecial;
    if |line| > 1 {
      var next := line[1];
      assert next == line[1..][0];
      if next.gap != [] {
        BlankSeparates(next.gap);
      } else {
        TextSeparates(next);
      }
    }
  }

  lemma TextSeparates(w: Written)
    requires Spells(w.text, w.token) && Inline(w) && !w.token.Atom?
    ensures w.text != [] && IsAtomSpecial(w.text[0])
  {
    hide Escape;
  }

  lemma {:induction false} LexSpelling(line: seq<Written>, rest: bytes)
    requires Spelt(line) && Separate(line) && AllInline(line) && Ends(line, rest)
    ensures Lex(Spelling(line) + rest) == PrependTokens(TokensOf(line), Lex(rest))
  {
    hide Lex, Spells, Blank, IsAtomSpecial, Inline;
    if line == [] {
      assert Spelling(line) + rest == rest;
      PrependNone(Lex(rest));
    } else {
      var w, tail := line[0], line[1..];
      assert Spelling(line) + rest == w.gap + w.text + (Spelling(tail) + rest);
      if w.token.Atom? {
        NextSeparates(line, rest);
      }
      LexWritten(w, Spelling(tail) + rest);
      LexSpelling(tail, rest);
      PrependTokensTwice([w.token], TokensOf(tail), Lex(rest));
    }
  }

  lemma PrependNone(l: Lexed)
    ensures PrependTokens([], l) == l
  {
    if l.Segment? {
      assert [] + l.tokens == l.tokens;
    }
  }

  // -------------------------------------------------------------------------
  // Its end
  // -------------------------------------------------------------------------

  lemma {:induction false} SpellingHasNoBreak(line: seq<Written>)
    requires Spelt(line) && AllInline(line)
    ensures LF !in Spelling(line)
  {
    hide Spells, Inline;
    if line != [] {
      WrittenHasNoBreak(line[0]);
      SpellingHasNoBreak(line[1..]);
    }
  }

  lemma WrittenHasNoBreak(w: Written)
    requires Spells(w.text, w.token) && Inline(w)
    ensures LF !in w.text
  {
    hide Marker.Text, Decimal.Value;
    match w.token
    case String(octets) =>
      if LF !in octets {
        RoundTrip.EscapeHasNoBreak(octets);
      } else {
        MarkIsNoQuote(w.text, octets);
      }
    case _ =>
  }

  /** A literal does not start as a quoted string does. */
  lemma MarkIsNoQuote(text: bytes, octets: bytes)
    requires SpellsLiteral(text, octets)
    ensures text != Enquote(octets)
  {
    hide Escape, Decimal.Value, AllDigits;
    var digits: bytes, plus: bool, eol: bytes :|
      AllDigits(digits) && digits != [] && text == Marker.Text(digits, plus) + eol + octets;
    assert text[0] == LBRACE;
    assert Enquote(octets)[0] == QUOTE;
  }

  lemma MarkHasNoBreak(digits: bytes, plus: bool)
    requires AllDigits(digits)
    ensures var mark := Marker.Text(digits, plus);
            mark != [] && LF !in mark && mark[0] == LBRACE && mark[|mark| - 1] == RBRACE
  {
    assert forall i :: 0 <= i < |digits| ==> IsDigit(digits[i]);
  }

  /** A physical line, whichever way it is broken. */
  lemma BrokenLine(text: bytes, eol: bytes, tail: bytes)
    requires LF !in text && (eol == CRLF || (eol == [LF] && (text == [] || text[|text| - 1] != CR)))
    ensures FirstLine(text + eol + tail) ==
            match Lex(text)
            case BadSegment(e) => BadLine(e)
            case Segment(tokens, None) => LineEnd(tokens, |text + eol|)
            case Segment(tokens, Some(size)) => BeforeLiteral(tokens, |text + eol|, size)
  {
    hide Lex;
    if eol == CRLF {
      RoundTrip.FirstLineOf(text, tail);
    } else {
      var buf := text + eol + tail;
      assert buf[..|text|] == text;
      IndexOfIs(buf, LF, |text|);
    }
  }

  lemma BlankHasNoBreak(gap: bytes)
    requires Blank(gap)
    ensures LF !in gap
  {
  }

  /** The last octet of a line of tokens is not a carriage return. */
  lemma SpellingEnds(line: seq<Written>)
    requires Spelt(line) && AllInline(line) && line != []
    ensures Spelling(line) != [] && Spelling(line)[|Spelling(line)| - 1] != CR
  {
    hide Spells, Inline;
    var w := line[|line| - 1];
    WrittenEnds(w);
    assert line == line[..|line| - 1] + [w];
    SpellingAppend(line[..|line| - 1], [w]);
    Alone(w);
  }

  lemma WrittenEnds(w: Written)
    requires Spells(w.text, w.token) && Inline(w)
    ensures w.text != [] && w.text[|w.text| - 1] != CR
  {
    hide Escape;
  }

  /** The tokens of a physical line that ends a logical one. */
  lemma LexToTheEnd(line: seq<Written>, gap: bytes)
    requires Spelt(line) && Separate(line) && AllInline(line) && Blank(gap)
    ensures Lex(Spelling(line) + gap) == Segment(TokensOf(line), None)
  {
    hide Spelt, AllInline, Separate, Spelling, TokensOf;
    if gap != [] {
      BlankSeparates(gap);
    }
    LexSpelling(line, gap);
    assert gap + [] == gap;
    LexBlank(gap, []);
    assert TokensOf(line) + [] == TokensOf(line);
  }

  lemma LastPhysical(line: seq<Written>, gap: bytes, eol: bytes, tail: bytes)
    requires Spelt(line) && Separate(line) && AllInline(line) && Blank(gap) && (eol == [LF] || eol == CRLF)
    ensures FirstLine(Spelling(line) + gap + eol + tail) == LineEnd(TokensOf(line), |Spelling(line) + gap + eol|)
  {
    hide Lex, Spelt, AllInline, Separate, Spelling, TokensOf, FirstLine;
    var text := Spelling(line) + gap;
    SpellingHasNoBreak(line);
    BlankHasNoBreak(gap);
    if eol == [LF] && gap != [] && gap[|gap| - 1] == CR {
      var less := gap[..|gap| - 1];
      BlankPrefix(gap);
      LexToTheEnd(line, less);
      BrokenLine(Spelling(line) + less, CRLF, tail);
      assert gap == less + [CR] && Spelling(line) + gap + eol == Spelling(line) + less + CRLF;
    } else {
      if line != [] {
        SpellingEnds(line);
      } else {
        NothingSpelt(line);
      }
      LexToTheEnd(line, gap);
      BrokenLine(text, eol, tail);
    }
  }

  lemma NothingSpelt(line: seq<Written>)
    requires line == []
    ensures Spelling(line) == []
  {
  }

  lemma BlankPrefix(gap: bytes)
    requires Blank(gap) && gap != []
    ensures Blank(gap[..|gap| - 1])
  {
  }

  /** The tokens of a physical line that a literal follows. */
  lemma PhysicalBeforeLiteral(line: seq<Written>, gap: bytes, digits: bytes, plus: bool, eol: bytes, tail: bytes)
    requires Spelt(line) && Separate(line) && AllInline(line) && Blank(gap) && (eol == [LF] || eol == CRLF)
    requires AllDigits(digits) && digits != [] && Decimal.Value(digits) <= MAX_LITERAL
    ensures var mark := Marker.Text(digits, plus);
            FirstLine(Spelling(line) + gap + mark + eol + tail) ==
            BeforeLiteral(TokensOf(line), |Spelling(line) + gap + mark + eol|, Decimal.Value(digits))
  {
    hide Lex, Spelt, AllInline, Separate, Spelling, TokensOf, FirstLine, LiteralSize, Decimal.Value, Marker.Text, Blank;
    var mark := Marker.Text(digits, plus);
    var text := Spelling(line) + gap + mark;
    MarkHasNoBreak(digits, plus);
    Marker.MarkerTrichotomy(digits, plus);
    SpellingHasNoBreak(line);
    BlankHasNoBreak(gap);
    LexMark(gap, mark);
    LexSpelling(line, gap + mark);
    assert Spelling(line) + (gap + mark) == text;
    assert TokensOf(line) + [] == TokensOf(line);
    BrokenLine(text, eol, tail);
  }

  lemma LexMark(gap: bytes, mark: bytes)
    requires Blank(gap) && mark != [] && mark[0] == LBRACE && LiteralSize(mark).Success?
    ensures Lex(gap + mark) == Segment([], Some(LiteralSize(mark).value))
    ensures IsAtomSpecial((gap + mark)[0])
  {
    hide LiteralSize, Unquote, AtomLength;
    LexBlank(gap, mark);
    if gap != [] {
      BlankSeparates(gap);
    }
  }

  // -------------------------------------------------------------------------
  // One logical line
  // -------------------------------------------------------------------------

  /** A token that carries on past its physical line is a literal. */
  lemma LiteralParts(w: Written) returns (digits: bytes, plus: bool, eol: bytes)
    requires Spells(w.text, w.token) && !Inline(w)
    ensures w.token.String? && AllDigits(digits) && digits != []
    ensures Decimal.Value(digits) == |w.token.octets| <= MAX_LITERAL && (eol == CRLF || eol == [LF])
    ensures w.text == Marker.Text(digits, plus) + eol + w.token.octets
  {
    hide Decimal.Value, Marker.Text, AllDigits;
    digits, plus, eol :|
      && AllDigits(digits) && digits != [] && Decimal.Value(digits) == |w.token.octets| <= MAX_LITERAL
      && (eol == CRLF || eol == [LF]) && w.text == Marker.Text(digits, plus) + eol + w.token.octets;
  }

  lemma SpeltParts(a: seq<Written>, w: Written, b: seq<Written>)
    requires Spelt(a + [w] + b) && Separate(a + [w] + b)
    ensures Spelt(a) && Separate(a) && Spelt(b) && Separate(b) && Blank(w.gap) && Spells(w.text, w.token)
  {
    hide Spells, Blank;
    var all := a + [w] + b;
    assert all[|a|] == w;
    assert forall i :: 0 <= i < |a| ==> a[i] == all[i];
    assert forall i :: 0 <= i < |b| ==> b[i] == all[|a| + 1 + i];
  }

  /** A line with a literal in it, up to the literal and past it. */
  lemma ScanOverWritten(done: seq<Written>, w: Written, more: bytes)
    requires Spelt(done) && Separate(done) && AllInline(done) && Blank(w.gap) && Spells(w.text, w.token) && !Inline(w)
    ensures var front := Spelling(done) + (w.gap + w.text);
            w.token.String? && Scan(front + more) == PrependLine(TokensOf(done) + [w.token], |front|, Scan(more))
  {
    hide FirstLine, Spelt, AllInline, Separate, Spelling, TokensOf, Blank, Spells, Inline, Decimal.Value, PrependLine;
    hide Marker.Text, Scan, AllDigits;
    var digits, plus, eol := LiteralParts(w);
    var octets, mark := w.token.octets, Marker.Text(digits, plus);
    var line := Spelling(done) + w.gap + mark + eol;
    PhysicalBeforeLiteral(done, w.gap, digits, plus, eol, octets + more);
    RoundTrip.ScanOverLiteral(line, TokensOf(done), octets, more);
    assert Spelling(done) + (w.gap + (mark + eol + octets)) + more == line + (octets + more);
  }

  /** The scan of a line after its inline tokens `done`. */
  lemma {:induction false} ScanSpelling(done: seq<Written>, todo: seq<Written>, gap: bytes, eol: bytes, tail: bytes)
    requires Spelt(done + todo) && Separate(done + todo) && AllInline(done)
    requires Blank(gap) && (eol == [LF] || eol == CRLF)
    ensures Scan(Spelling(done + todo) + gap + eol + tail) ==
            Parsed(TokensOf(done + todo), |Spelling(done + todo) + gap + eol|)
    decreases |todo|
  {
    hide Scan, Spelt, Separate, Spelling, TokensOf, Inline, Blank, Spells, FirstLine;
    if todo == [] {
      assert done + todo == done;
      LastPhysical(done, gap, eol, tail);
      LineScans(Spelling(done) + gap + eol + tail, TokensOf(done), |Spelling(done) + gap + eol|);
    } else {
      var w, rest := todo[0], todo[1..];
      assert done + todo == done + [w] + rest;
      SpeltParts(done, w, rest);
      if Inline(w) {
        ScanSpelling(done + [w], rest, gap, eol, tail);
      } else {
        assert [] + rest == rest;
        ScanSpelling([], rest, gap, eol, tail);
        var more := Spelling(rest) + gap + eol + tail;
        ScanOverWritten(done, w, more);
        SpellingAround(done, w, rest);
        var front := Spelling(done) + (w.gap + w.text);
        assert front + Spelling(rest) + gap + eol + tail == front + more;
        assert |front + Spelling(rest) + gap + eol| == |front| + |Spelling(rest) + gap + eol|;
      }
    }
  }

  lemma LineScans(buf: bytes, tokens: seq<Token>, n: nat)
    requires FirstLine(buf) == LineEnd(tokens, n)
    ensures Scan(buf) == Parsed(tokens, n)
  {
    hide FirstLine;
  }

  lemma SpellingAround(a: seq<Written>, w: Written, b: seq<Written>)
    ensures Spelling(a + [w] + b) == Spelling(a) + (w.gap + w.text) + Spelling(b)
    ensures TokensOf(a + [w] + b) == TokensOf(a) + [w.token] + TokensOf(b)
  {
    hide Spelling, TokensOf;
    SpellingAppend(a + [w], b);
    SpellingAppend(a, [w]);
    Alone(w);
  }

  /** A text is a line of the grammar, of these tokens. */
  ghost predicate IsLine(text: bytes, tokens: seq<Token>) {
    exists line, gap, eol :: Writes(line, gap, eol, text, tokens)
  }

  ghost predicate Writes(line: seq<Written>, gap: bytes, eol: bytes, text: bytes, tokens: seq<Token>) {
    && Spelt(line) && Separate(line) && TokensOf(line) == tokens
    && Blank(gap) && (eol == [LF] || eol == CRLF) && text == Spelling(line) + gap + eol
  }

  /** The scanner answers tokens and a length if and only if that many octets
      of the buffer are a line of the grammar, of those tokens. */
  lemma ScansExactlyTheGrammar(buf: bytes, tokens: seq<Token>, n: nat)
    ensures Scan(buf) == Parsed(tokens, n) <==> n <= |buf| && IsLine(buf[..n], tokens)
  {
    hide Scan, Spelt, Separate, Spelling, TokensOf, Blank;
    if Scan(buf) == Parsed(tokens, n) {
      var line, gap, eol := ScanAcceptsSpellings(buf);
      assert Writes(line, gap, eol, buf[..n], tokens);
    }
    if n <= |buf| && IsLine(buf[..n], tokens) {
      var line, gap, eol :| Writes(line, gap, eol, buf[..n], tokens);
      assert [] + line == line;
      ScanSpelling([], line, gap, eol, buf[n..]);
      assert buf == buf[..n] + buf[n..];
    }
  }

  /** A backslash before anything but a quote or a backslash is refused, whatever
      comes before and after: it is no escape, and no octet of its own. */
  lemma EscapeIsRefused(value: bytes, b: byte, rest: bytes, tail: bytes)
    requires b != QUOTE && b != BACKSLASH && b != LF && LF !in value && LF !in rest
    ensures Scan([QUOTE] + Escape(value) + [BACKSLASH, b] + rest + CRLF + tail) == Failed(InvalidEscape(b))
  {
    hide Lex, Escape, FirstLine;
    var line := [QUOTE] + Escape(value) + [BACKSLASH, b] + rest;
    RoundTrip.EscapeHasNoBreak(value);
    BadEscape(value, b, rest);
    LexBadQuoted(line, InvalidEscape(b));
    RoundTrip.FirstLineOf(line, tail);
  }

  lemma LexBadQuoted(line: bytes, e: ParseError)
    requires line != [] && line[0] == QUOTE && Unquote(line[1..]) == BadQuoted(e)
    ensures Lex(line) == BadSegment(e)
  {
    hide Unquote;
  }

  lemma BadEscape(value: bytes, b: byte, rest: bytes)
    requires b != QUOTE && b != BACKSLASH
    ensures Unquote(([QUOTE] + Escape(value) + [BACKSLASH, b] + rest)[1..]) == BadQuoted(InvalidEscape(b))
  {
    hide Unquote, Escape;
    var line := [QUOTE] + Escape(value) + [BACKSLASH, b] + rest;
    assert line[1..] == Escape(value) + ([BACKSLASH, b] + rest);
    BadAfter(value, [BACKSLASH, b] + rest, InvalidEscape(b));
  }

  lemma {:induction false} BadAfter(value: bytes, rest: bytes, e: ParseError)
    requires |rest| >= 2 && rest[0] == BACKSLASH && rest[1] != QUOTE && rest[1] != BACKSLASH
             && e == InvalidEscape(rest[1])
    ensures Unquote(Escape(value) + rest) == BadQuoted(e)
  {
    hide IsQuotedSpecial, EscapeCount;
    if value == [] {
      assert Escape(value) + rest == rest;
    } else {
      hide Unquote;
      BadAfter(value[1..], rest, e);
      var tail := Escape(value[1..]) + rest;
      RoundTrip.UnquoteStep(value[0], tail);
      assert Escape(value) + rest ==
             (if IsQuotedSpecial(value[0]) then [BACKSLASH, value[0]] else [value[0]]) + tail;
    }
  }

  /** A quoted string that nothing closes is refused, a backslash at its very end
      included. */
  lemma UnclosedIsRefused(value: bytes, trail: bytes, tail: bytes)
    requires LF !in value && (trail == [] || trail == [BACKSLASH])
    ensures Scan([QUOTE] + Escape(value) + trail + CRLF + tail) == Failed(UnterminatedQuoted)
  {
    hide Lex, Escape, FirstLine;
    var line := [QUOTE] + Escape(value) + trail;
    RoundTrip.EscapeHasNoBreak(value);
    assert line[1..] == Escape(value) + trail;
    UnclosedAfter(value, trail);
    LexBadQuoted(line, UnterminatedQuoted);
    RoundTrip.FirstLineOf(line, tail);
  }

  lemma {:induction false} UnclosedAfter(value: bytes, trail: bytes)
    requires trail == [] || trail == [BACKSLASH]
    ensures Unquote(Escape(value) + trail) == BadQuoted(UnterminatedQuoted)
  {
    hide IsQuotedSpecial, EscapeCount;
    if value == [] {
      assert Escape(value) + trail == trail;
    } else {
      hide Unquote;
      UnclosedAfter(value[1..], trail);
      var tail := Escape(value[1..]) + trail;
      RoundTrip.UnquoteStep(value[0], tail);
      assert Escape(value) + trail ==
             (if IsQuotedSpecial(value[0]) then [BACKSLASH, value[0]] else [value[0]]) + tail;
    }
  }

  /** No octets are lines of two sequences of tokens. */
  lemma GrammarIsUnambiguous(text: bytes, a: seq<Token>, b: seq<Token>)
    requires IsLine(text, a) && IsLine(text, b)
    ensures a == b
  {
    hide Scan, IsLine;
    assert text[..|text|] == text;
    ScansExactlyTheGrammar(text, a, |text|);
    ScansExactlyTheGrammar(text, b, |text|);
  }
}
