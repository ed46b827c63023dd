/** Which lines a scanner accepts: nothing but spellings of the tokens it
    answers. */
module Accepted {
  import opened Bytes
  import opened Scanner
  import opened Printer
  import Decimal
  import Marker

  /** White space within a physical line. */
  predicate Blank(gap: bytes) {
    forall i :: 0 <= i < |gap| ==> IsWhitespace(gap[i]) && gap[i] != LF
  }

  /** A literal: a marker, in any digits, a line break, and as many octets as
      the marker says. */
  ghost predicate SpellsLiteral(text: bytes, octets: bytes) {
    exists digits: bytes, plus: bool, eol: bytes ::
      && AllDigits(digits) && digits != [] && Decimal.Value(digits) == |octets| <= MAX_LITERAL
      && (eol == CRLF || eol == [LF])
      && text == Marker.Text(digits, plus) + eol + octets
  }

  ghost predicate Spells(text: bytes, token: Token) {
    match token
    case Open => text == [LPAREN]
    case Close => text == [RPAREN]
    case Atom(octets) => text == octets != [] && forall i :: 0 <= i < |octets| ==> !IsAtomSpecial(octets[i])
    case String(octets) => (text == Enquote(octets) && LF !in octets) || SpellsLiteral(text, octets)
  }

  /** A token as it was written, and the white space before it. */
  datatype Written = Written(gap: bytes, text: bytes, token: Token)

  ghost predicate Spelt(line: seq<Written>) {
    forall i :: 0 <= i < |line| ==> Blank(line[i].gap) && Spells(line[i].text, line[i].token)
  }

  /** Two atoms in a row are kept apart. */
  predicate Separate(line: seq<Written>) {
    forall i :: 0 < i < |line| && line[i - 1].token.Atom? && line[i].token.Atom? ==> line[i].gap != []
  }

  function Spelling(line: seq<Written>): bytes {
    if line == [] then [] else line[0].gap + line[0].text + Spelling(line[1..])
  }

  function TokensOf(line: seq<Written>): seq<Token> {
    if line == [] then [] else [line[0].token] + TokensOf(line[1..])
  }

  lemma {:induction false} SpellingAppend(a: seq<Written>, b: seq<Written>)
    ensures Spelling(a + b) == Spelling(a) + Spelling(b)
    ensures TokensOf(a + b) == TokensOf(a) + TokensOf(b)
  {
    if a == [] {
      assert a + b == b;
    } else {
      assert (a + b)[1..] == a[1..] + b;
      SpellingAppend(a[1..], b);
    }
  }

  lemma Alone(w: Written)
    ensures Spelling([w]) == w.gap + w.text && TokensOf([w]) == [w.token]
  {
    assert [w][1..] == [];
  }

  // -------------------------------------------------------------------------
  // One physical line
  // -------------------------------------------------------------------------

  /** A quoted string is read from its escaped octets only. */
  lemma {:induction false} OnlyEscapes(text: bytes)
    requires Unquote(text).Quoted?
    ensures text == Escape(Unquote(text).octets) + [QUOTE] + Unquote(text).rest
    decreases |text|
  {
    if text[0] == QUOTE {
      assert text == [QUOTE] + text[1..];
    } else if text[0] == BACKSLASH {
      OnlyEscapes(text[2..]);
      EscapedOctet(text[1], Unquote(text[2..]).octets);
      assert text == [BACKSLASH, text[1]] + text[2..];
    } else {
      OnlyEscapes(text[1..]);
      EscapedOctet(text[0], Unquote(text[1..]).octets);
      assert text == [text[0]] + text[1..];
    }
  }

  lemma EscapedOctet(b: byte, rest: bytes)
    ensures Escape([b] + rest) == (if IsQuotedSpecial(b) then [BACKSLASH, b] else [b]) + Escape(rest)
  {
    assert ([b] + rest)[1..] == rest;
  }

  /** The first token of a physical line, and what is left past it. */
  ghost predicate Opens(text: bytes, w: Written, rest: bytes) {
    text == w.gap + w.text + rest && Blank(w.gap) && Spells(w.text, w.token)
  }

  lemma QuotedOpens(text: bytes)
    requires text != [] && text[0] == QUOTE && LF !in text && Unquote(text[1..]).Quoted?
    ensures var q := Unquote(text[1..]); Opens(text, Written([], Enquote(q.octets), String(q.octets)), q.rest)
  {
    hide Unquote, Escape;
    var q := Unquote(text[1..]);
    OnlyEscapes(text[1..]);
    assert text == [QUOTE] + text[1..];
    assert text == [] + Enquote(q.octets) + q.rest;
    EscapeKeeps(q.octets, LF);
    assert LF !in Escape(q.octets);
  }

  /** Every octet of a value is in its escaped form. */
  lemma {:induction false} EscapeKeeps(value: bytes, b: byte)
    ensures b in value ==> b in Escape(value)
  {
    if value != [] {
      EscapeKeeps(value[1..], b);
    }
  }

  /** A token in front of a line. */
  lemma InFront(w: Written, line: seq<Written>)
    requires Blank(w.gap) && Spells(w.text, w.token) && Spelt(line)
    ensures Spelt([w] + line) && Spelling([w] + line) == w.gap + w.text + Spelling(line)
    ensures TokensOf([w] + line) == [w.token] + TokensOf(line)
  {
    hide Spells, Blank;
    assert ([w] + line)[1..] == line;
  }

  /** White space in front of a line, and of what follows it. */
  lemma Widen(b: byte, line: seq<Written>, gap: bytes) returns (wider: seq<Written>, widerGap: bytes)
    requires IsWhitespace(b) && b != LF && Spelt(line) && Blank(gap) && Separate(line)
    ensures Separate(wider)
    ensures Spelt(wider) && Blank(widerGap) && TokensOf(wider) == TokensOf(line)
    ensures Spelling(wider) + widerGap == [b] + (Spelling(line) + gap)
  {
    hide Spells;
    if line == [] {
      wider, widerGap := line, [b] + gap;
    } else {
      var w := line[0].(gap := [b] + line[0].gap);
      wider, widerGap := [w] + line[1..], gap;
      assert line == [line[0]] + line[1..];
      InFront(line[0], line[1..]);
      InFront(w, line[1..]);
      assert [b] + (line[0].gap + line[0].text + Spelling(line[1..]) + gap) ==
             [b] + line[0].gap + line[0].text + Spelling(line[1..]) + gap;
    }
  }

  /** The text of a physical line: its tokens, white space, and a marker when
      one ends it. */
  ghost predicate Segmented(text: bytes, l: Lexed, line: seq<Written>, gap: bytes, mark: bytes)
    requires l.Segment?
  {
    && Spelt(line) && Separate(line) && Blank(gap) && TokensOf(line) == l.tokens
    && text == Spelling(line) + gap + mark
    && if l.marker.None? then mark == [] else LiteralSize(mark) == Success(l.marker.value)
  }

  /** The token a physical line opens with, when it is not a quoted string. */
  lemma PlainOpens(text: bytes)
    requires text != [] && !IsWhitespace(text[0]) && text[0] != QUOTE && text[0] != LBRACE && Lex(text).Segment?
    ensures var w, rest := FirstWritten(text), text[|FirstWritten(text).text|..];
            && Opens(text, w, rest) && Lex(text) == PrependTokens([w.token], Lex(rest)) && w.text != []
            && (w.token.Atom? && rest != [] ==> IsAtomSpecial(rest[0]))
  {
    hide Unquote, LiteralSize;
  }

  function FirstWritten(text: bytes): Written
    requires text != []
  {
    if text[0] == LPAREN then Written([], [LPAREN], Open)
    else if text[0] == RPAREN then Written([], [RPAREN], Close)
    else Written([], text[..AtomLength(text)], Atom(text[..AtomLength(text)]))
  }

  lemma {:induction false} LexAccepts(text: bytes) returns (line: seq<Written>, gap: bytes, mark: bytes)
    requires LF !in text && Lex(text).Segment?
    ensures Segmented(text, Lex(text), line, gap, mark)
    decreases |text|
  {
    hide Unquote, LiteralSize, Spells, Escape, AtomLength, Segmented;
    if text == [] {
      line, gap, mark := [], [], [];
      NothingWritten(text);
    } else if IsWhitespace(text[0]) {
      line, gap, mark := LexAccepts(text[1..]);
      line, gap := WidenSegment(text, line, gap, mark);
    } else if text[0] == QUOTE {
      QuotedOpens(text);
      var q := Unquote(text[1..]);
      line, gap, mark := LexAccepts(q.rest);
      line := OpenSegment(text, Written([], Enquote(q.octets), String(q.octets)), q.rest, line, gap, mark);
    } else if text[0] == LBRACE {
      line, gap, mark := [], [], text;
      OnlyMarker(text);
    } else {
      PlainOpens(text);
      var w := FirstWritten(text);
      line, gap, mark := LexAccepts(text[|w.text|..]);
      line := OpenSegment(text, w, text[|w.text|..], line, gap, mark);
    }
  }

  lemma NothingWritten(text: bytes)
    requires text == []
    ensures Segmented(text, Lex(text), [], [], [])
  {
  }

  lemma OnlyMarker(text: bytes)
    requires text != [] && text[0] == LBRACE && Lex(text).Segment?
    ensures Segmented(text, Lex(text), [], [], text)
  {
    hide LiteralSize;
    assert Spelling([]) + [] + text == text;
  }

  lemma WidenSegment(text: bytes, line: seq<Written>, gap: bytes, mark: bytes)
    returns (wider: seq<Written>, widerGap: bytes)
    requires text != [] && IsWhitespace(text[0]) && text[0] != LF && Lex(text).Segment?
    requires Segmented(text[1..], Lex(text[1..]), line, gap, mark)
    ensures Segmented(text, Lex(text), wider, widerGap, mark)
  {
    hide Unquote, LiteralSize, Spelt, Blank, Spelling, TokensOf;
    wider, widerGap := Widen(text[0], line, gap);
    assert text == [text[0]] + text[1..];
    assert [text[0]] + (Spelling(line) + gap + mark) == [text[0]] + (Spelling(line) + gap) + mark;
  }

  /** An atom at the front of a text is one the text starts with. */
  lemma StartsApart(rest: bytes, line: seq<Written>, gap: bytes, mark: bytes)
    requires Spelt(line) && rest == Spelling(line) + gap + mark
    ensures line != [] && line[0].token.Atom? && line[0].gap == [] ==> rest != [] && !IsAtomSpecial(rest[0])
  {
    if line != [] && line[0].token.Atom? && line[0].gap == [] {
      assert rest == line[0].text + (Spelling(line[1..]) + gap + mark);
    }
  }

  lemma OpenSegment(text: bytes, w: Written, rest: bytes, line: seq<Written>, gap: bytes, mark: bytes)
    returns (longer: seq<Written>)
    requires w.token.Atom? && rest != [] ==> IsAtomSpecial(rest[0])
    requires Opens(text, w, rest) && Lex(rest).Segment? && Lex(text) == PrependTokens([w.token], Lex(rest))
    requires Segmented(rest, Lex(rest), line, gap, mark)
    ensures Segmented(text, Lex(text), longer, gap, mark)
  {
    hide Lex, LiteralSize, Spelt, Blank, Spelling, TokensOf, Spells;
    longer := [w] + line;
    InFront(w, line);
    StartsApart(rest, line, gap, mark);
    assert w.gap + w.text + (Spelling(line) + gap + mark) == w.gap + w.text + Spelling(line) + gap + mark;
  }

  // -------------------------------------------------------------------------
  // One logical line
  // -------------------------------------------------------------------------

  /** Where the first physical line of a buffer ends, and what it spells. */
  lemma FirstLineAccepts(buf: bytes) returns (line: seq<Written>, gap: bytes, mark: bytes, eol: bytes)
    requires FirstLine(buf).LineEnd? || FirstLine(buf).BeforeLiteral?
    ensures var f := FirstLine(buf);
            && Spelt(line) && Separate(line) && Blank(gap) && TokensOf(line) == f.tokens && (eol == [LF] || eol == CRLF)
            && f.taken <= |buf| && buf[..f.taken] == Spelling(line) + gap + mark + eol
            && if f.LineEnd? then mark == [] else LiteralSize(mark) == Success(f.size)
  {
    hide Lex, LiteralSize, Spelt, Spelling, TokensOf, Blank;
    var at := IndexOf(buf, LF).value;
    var text := Chomp(buf[..at]);
    line, gap, mark := LexAccepts(text);
    eol := if text == buf[..at] then [LF] else CRLF;
    assert buf[..at + 1] == text + eol;
  }

  /** The literal after a marker is spelt by the marker, the line break and its
      octets. */
  lemma MarkSpells(mark: bytes, eol: bytes, octets: bytes)
    requires LiteralSize(mark) == Success(|octets|) && (eol == [LF] || eol == CRLF)
    ensures Spells(mark + eol + octets, String(octets))
  {
    hide LiteralSize, Decimal.Value, Marker.Text;
    Marker.MarkerAccepted(mark, |octets|);
    var digits: bytes, plus: bool :| AllDigits(digits) && digits != [] && mark == Marker.Text(digits, plus)
                                     && Decimal.Value(digits) == |octets|;
    assert mark + eol + octets == Marker.Text(digits, plus) + eol + octets;
  }

  /** A scanner accepts nothing but spellings: a line it answers tokens for is
      those tokens, each as its grammar has it, with white space around them and
      a line break at the end. */
  lemma {:induction false} ScanAcceptsSpellings(buf: bytes) returns (line: seq<Written>, gap: bytes, eol: bytes)
    requires Scan(buf).Parsed?
    ensures Spelt(line) && Separate(line) && TokensOf(line) == Scan(buf).value
    ensures Blank(gap) && (eol == [LF] || eol == CRLF)
    ensures buf[..Scan(buf).consumed] == Spelling(line) + gap + eol
    decreases |buf|
  {
    hide FirstLine, LiteralSize, Spelt, Spelling, TokensOf, Blank, Spells;
    var mark;
    line, gap, mark, eol := FirstLineAccepts(buf);
    var f := FirstLine(buf);
    if f.LineEnd? {
      EndsHere(buf, f);
      assert Spelling(line) + gap + [] + eol == Spelling(line) + gap + eol;
    } else {
      LiteralThenRest(buf, f);
      var octets, rest := buf[f.taken..f.taken + f.size], buf[f.taken + f.size..];
      var w := Written(gap, mark + eol + octets, String(octets));
      MarkSpells(mark, eol, octets);
      var more, lastGap, lastEol := ScanAcceptsSpellings(rest);
      Joined(line, w, more);
      Assembled(buf, f, Scan(rest).consumed, Spelling(line), gap, mark, eol, Spelling(more), lastGap + lastEol);
      line, gap, eol := line + ([w] + more), lastGap, lastEol;
    }
  }

  lemma EndsHere(buf: bytes, f: Physical)
    requires f == FirstLine(buf) && f.LineEnd?
    ensures Scan(buf) == Parsed(f.tokens, f.taken)
  {
    hide FirstLine;
  }

  lemma Assembled(buf: bytes, f: Physical, n: nat, line: bytes, gap: bytes, mark: bytes, eol: bytes,
                  more: bytes, end: bytes)
    requires f.BeforeLiteral? && f.taken + f.size + n <= |buf|
    requires buf[..f.taken] == line + gap + mark + eol && buf[f.taken + f.size..][..n] == more + end
    ensures var octets := buf[f.taken..f.taken + f.size];
            buf[..f.taken + f.size + n] == line + (gap + (mark + eol + octets) + more) + end
  {
    var octets := buf[f.taken..f.taken + f.size];
    assert buf[..f.taken + f.size + n] == buf[..f.taken] + octets + buf[f.taken + f.size..][..n];
  }

  lemma Joined(line: seq<Written>, w: Written, more: seq<Written>)
    requires Spelt(line) && Blank(w.gap) && Spells(w.text, w.token) && Spelt(more)
    requires Separate(line) && Separate(more) && w.token.String?
    ensures Separate(line + ([w] + more))
    ensures var all := line + ([w] + more);
            && Spelt(all) && Spelling(all) == Spelling(line) + (w.gap + w.text + Spelling(more))
            && TokensOf(all) == TokensOf(line) + ([w.token] + TokensOf(more))
  {
    hide Spells, Blank, Spelling, TokensOf;
    InFront(w, more);
    SpellingAppend(line, [w] + more);
  }

  lemma LiteralThenRest(buf: bytes, f: Physical)
    requires f == FirstLine(buf) && f.BeforeLiteral? && Scan(buf).Parsed?
    ensures f.taken + f.size <= |buf|
    ensures var octets, rest := buf[f.taken..f.taken + f.size], buf[f.taken + f.size..];
            && Scan(rest).Parsed? && Scan(buf).consumed == f.taken + f.size + Scan(rest).consumed
            && Scan(buf).value == f.tokens + ([String(octets)] + Scan(rest).value)
  {
    hide FirstLine, PrependLine;
    var octets, rest := buf[f.taken..f.taken + f.size], buf[f.taken + f.size..];
    var p := Scan(rest);
    assert Scan(buf) == PrependLine(f.tokens + [String(octets)], f.taken + f.size, p);
    Prepended(f.tokens, String(octets), f.taken + f.size, p);
  }

  lemma Prepended(tokens: seq<Token>, token: Token, taken: nat, p: Parsed<seq<Token>>)
    requires PrependLine(tokens + [token], taken, p).Parsed?
    ensures p.Parsed? && PrependLine(tokens + [token], taken, p).consumed == taken + p.consumed
    ensures PrependLine(tokens + [token], taken, p).value == tokens + ([token] + p.value)
  {
  }
}
