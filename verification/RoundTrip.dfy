/** Scanning undoes printing (section 4 of RFC 5804): any list of tokens, each
    string written quoted or as a literal, scans back to exactly those tokens
    whatever follows the line. */
module RoundTrip {
  import opened Bytes
  import opened Scanner
  import opened Printer
  import Decimal
  import Marker

  lemma {:induction false} RenderAppend(a: seq<Piece>, b: seq<Piece>)
    ensures Render(a + b) == Render(a) + Render(b)
  {
    hide ItemText, Gap;
    if a == [] {
      assert a + b == b;
    } else {
      assert (a + b)[1..] == a[1..] + b;
      RenderAppend(a[1..], b);
    }
  }

  lemma {:induction false} TokensAppend(a: seq<Piece>, b: seq<Piece>)
    ensures Tokens(a + b) == Tokens(a) + Tokens(b)
  {
    hide ItemToken;
    if a == [] {
      assert a + b == b;
    } else {
      assert (a + b)[1..] == a[1..] + b;
      TokensAppend(a[1..], b);
    }
  }

  // -------------------------------------------------------------------------
  // One physical line
  // -------------------------------------------------------------------------

  lemma {:induction false} UnquoteEscape(value: bytes, rest: bytes)
    ensures Unquote(Escape(value) + [QUOTE] + rest) == Quoted(value, rest)
  {
    hide Unquote, IsQuotedSpecial, EscapeCount, PrependOctets;
    if value == [] {
      UnquoteNothing(rest);
      assert Escape(value) + [QUOTE] + rest == [QUOTE] + rest;
    } else {
      var tail := Escape(value[1..]) + [QUOTE] + rest;
      UnquoteEscape(value[1..], rest);
      assert [value[0]] + value[1..] == value;
      UnquoteStep(value[0], tail);
      PrependOne(value[0], value[1..], rest);
      assert Escape(value) + [QUOTE] + rest ==
             (if IsQuotedSpecial(value[0]) then [BACKSLASH, value[0]] else [value[0]]) + tail;
    }
  }

  lemma UnquoteNothing(rest: bytes)
    ensures Unquote([QUOTE] + rest) == Quoted([], rest)
  {
    assert ([QUOTE] + rest)[1..] == rest;
  }

  lemma PrependOne(b: byte, octets: bytes, rest: bytes)
    ensures PrependOctets([b], Quoted(octets, rest)) == Quoted([b] + octets, rest)
  {
  }

  lemma UnquoteStep(b: byte, tail: bytes)
    ensures Unquote((if IsQuotedSpecial(b) then [BACKSLASH, b] else [b]) + tail) == PrependOctets([b], Unquote(tail))
  {
    var text := (if IsQuotedSpecial(b) then [BACKSLASH, b] else [b]) + tail;
    assert text[if IsQuotedSpecial(b) then 2 else 1..] == tail;
  }

  lemma LexQuotedText(value: bytes, rest: bytes)
    ensures Lex(Enquote(value) + rest) == PrependTokens([String(value)], Lex(rest))
  {
    hide Escape, Unquote, LiteralSize, AtomLength;
    var text := Enquote(value) + rest;
    assert text[1..] == Escape(value) + [QUOTE] + rest;
    UnquoteEscape(value, rest);
  }

  lemma {:induction false} LexGap(n: nat, rest: bytes)
    ensures Lex(Gap(n) + rest) == Lex(rest)
  {
    hide Unquote, LiteralSize, AtomLength;
    if n == 0 {
      assert Gap(n) + rest == rest;
    } else {
      assert (Gap(n) + rest)[1..] == Gap(n - 1) + rest;
      LexGap(n - 1, rest);
    }
  }

  lemma AtomLengthOf(word: bytes, rest: bytes)
    requires forall i :: 0 <= i < |word| ==> !IsAtomSpecial(word[i])
    requires rest == [] || IsAtomSpecial(rest[0])
    ensures AtomLength(word + rest) == |word|
  {
    var text := word + rest;
    var n := AtomLength(text);
    hide AtomLength, IsAtomSpecial;
    assert forall i :: 0 <= i < |word| ==> text[i] == word[i];
    assert rest != [] ==> text[|word|] == rest[0];
  }

  lemma LexWord(word: bytes, rest: bytes)
    requires IsWord(word)
    requires rest == [] || IsAtomSpecial(rest[0])
    ensures Lex(word + rest) == PrependTokens([Atom(word)], Lex(rest))
  {
    hide Unquote, LiteralSize, AtomLength;
    var text := word + rest;
    AtomLengthOf(word, rest);
    assert !IsAtomSpecial(word[0]);
    assert text[..|word|] == word;
    assert text[|word|..] == rest;
  }

  /** Whether `rest` can follow `pieces` without extending a final atom. */
  predicate Ends(pieces: seq<Piece>, rest: bytes) {
    pieces != [] && pieces[|pieces| - 1].item.Word? ==> rest == [] || IsAtomSpecial(rest[0])
  }

  /** A piece lexes to its token when what follows cannot extend it. */
  lemma LexPiece(p: Piece, rest: bytes)
    requires ValidItem(p.item) && !p.item.LiteralText?
    requires p.item.Word? ==> rest == [] || IsAtomSpecial(rest[0])
    ensures Lex(Gap(p.gap) + ItemText(p.item) + rest) == PrependTokens([ItemToken(p.item)], Lex(rest))
  {
    hide Unquote, LiteralSize, AtomLength, Enquote, IsWord, IsAtomSpecial;
    var text := ItemText(p.item) + rest;
    assert Gap(p.gap) + ItemText(p.item) + rest == Gap(p.gap) + text;
    LexGap(p.gap, text);
    match p.item
    case Word(octets) => LexWord(octets, rest);
    case QuotedText(octets) => LexQuotedText(octets, rest);
    case OpenParen => assert text[1..] == rest;
    case CloseParen => assert text[1..] == rest;
  }

  /** The first octet of what follows a piece keeps an atom from growing. */
  lemma NextPieceSeparates(pieces: seq<Piece>, rest: bytes)
    requires |pieces| > 0 && ValidLine(pieces) && Inline(pieces)
    requires pieces[0].item.Word? && Ends(pieces, rest)
    ensures var after := Render(pieces[1..]) + rest;
            after == [] || IsAtomSpecial(after[0])
  {
    hide IsWord, Escape;
    if |pieces| > 1 {
      var next := pieces[1];
      assert next == pieces[1..][0];
      if next.gap == 0 {
        assert !next.item.Word?;
      }
    }
  }

  /** A run of tokens without literals lexes to those tokens. */
  lemma {:induction false} LexInline(pieces: seq<Piece>, rest: bytes)
    requires ValidLine(pieces) && Inline(pieces) && Ends(pieces, rest)
    ensures Lex(Render(pieces) + rest) == PrependTokens(Tokens(pieces), Lex(rest))
  {
    hide Lex, ItemText, ItemToken, Gap, IsWord, IsAtomSpecial, ValidItem;
    if pieces == [] {
      assert Render(pieces) + rest == rest;
    } else {
      var p, tail := pieces[0], pieces[1..];
      assert Render(pieces) + rest == Gap(p.gap) + ItemText(p.item) + (Render(tail) + rest);
      if p.item.Word? {
        NextPieceSeparates(pieces, rest);
      }
      LexPiece(p, Render(tail) + rest);
      LexInline(tail, rest);
      PrependTokensTwice([ItemToken(p.item)], Tokens(tail), Lex(rest));
    }
  }

  // -------------------------------------------------------------------------
  // Line breaks
  // -------------------------------------------------------------------------

  lemma {:induction false} EscapeHasNoBreak(value: bytes)
    requires LF !in value
    ensures LF !in Escape(value)
  {
    if value != [] {
      assert value == [value[0]] + value[1..];
      EscapeHasNoBreak(value[1..]);
    }
  }

  lemma {:induction false} GapHasNoBreak(n: nat)
    ensures LF !in Gap(n)
  {
    if n > 0 {
      GapHasNoBreak(n - 1);
    }
  }

  lemma ItemHasNoBreak(item: Item)
    requires ValidItem(item) && !item.LiteralText?
    ensures LF !in ItemText(item)
  {
    hide Escape;
    match item
    case Word(octets) =>
      forall i | 0 <= i < |octets|
        ensures octets[i] != LF
      {
        assert !IsAtomSpecial(octets[i]);
      }
    case QuotedText(octets) => EscapeHasNoBreak(octets);
    case OpenParen =>
    case CloseParen =>
  }

  lemma {:induction false} InlineHasNoBreak(pieces: seq<Piece>)
    requires ValidLine(pieces) && Inline(pieces)
    ensures LF !in Render(pieces)
  {
    hide ItemText, ValidItem, Gap;
    if pieces != [] {
      GapHasNoBreak(pieces[0].gap);
      ItemHasNoBreak(pieces[0].item);
      InlineHasNoBreak(pieces[1..]);
    }
  }

  lemma MarkerHasNoBreak(n: nat, plus: bool)
    ensures LF !in Marker.Text(Decimal.Print(n), plus)
  {
    hide Decimal.Print;
    assert forall i :: 0 <= i < |Decimal.Print(n)| ==> IsDigit(Decimal.Print(n)[i]);
  }

  /** A physical line ending in CRLF is lexed without it. */
  lemma FirstLineOf(line: bytes, tail: bytes)
    requires LF !in line
    ensures FirstLine(line + CRLF + tail) ==
            match Lex(line)
            case BadSegment(e) => BadLine(e)
            case Segment(tokens, None) => LineEnd(tokens, |line| + 2)
            case Segment(tokens, Some(size)) => BeforeLiteral(tokens, |line| + 2, size)
  {
    hide Lex;
    var buf := line + CRLF + tail;
    var eol := |line| + 1;
    assert buf[..eol] == line + [CR];
    IndexOfIs(buf, LF, eol);
    assert Chomp(line + [CR]) == line;
  }

  // -------------------------------------------------------------------------
  // Logical lines
  // -------------------------------------------------------------------------

  lemma LexMarker(gap: nat, marker: bytes)
    requires marker != [] && marker[0] == LBRACE
    ensures IsAtomSpecial((Gap(gap) + marker)[0])
    ensures Lex(Gap(gap) + marker) ==
            match LiteralSize(marker)
            case Failure(e) => BadSegment(e)
            case Success(size) => Segment([], Some(size))
  {
    hide LiteralSize, Unquote, AtomLength;
    LexGap(gap, marker);
  }

  /** Tokens up to a literal marker are one physical line. */
  lemma FirstLineBeforeLiteral(done: seq<Piece>, gap: nat, marker: bytes, tail: bytes)
    requires ValidLine(done) && Inline(done)
    requires marker != [] && marker[0] == LBRACE && LF !in marker
    ensures var line := Render(done) + Gap(gap) + marker;
            FirstLine(line + CRLF + tail) ==
            match LiteralSize(marker)
            case Failure(e) => BadLine(e)
            case Success(size) => BeforeLiteral(Tokens(done), |line| + 2, size)
  {
    hide Lex, LiteralSize, FirstLine, Render, Tokens, ValidLine, Inline, Gap, IsAtomSpecial;
    var after := Gap(gap) + marker;
    assert Render(done) + Gap(gap) + marker == Render(done) + after;
    InlineHasNoBreak(done);
    GapHasNoBreak(gap);
    FirstLineOf(Render(done) + after, tail);
    LexMarker(gap, marker);
    LexInline(done, after);
  }

  /** Tokens up to the end of the logical line are one physical line. */
  lemma FirstLineFinal(done: seq<Piece>, tail: bytes)
    requires ValidLine(done) && Inline(done)
    ensures FirstLine(Render(done) + CRLF + tail) == LineEnd(Tokens(done), |Render(done)| + 2)
  {
    hide FirstLine, Render, Tokens, ValidLine, Inline;
    InlineHasNoBreak(done);
    FirstLineOf(Render(done), tail);
    LexInline(done, []);
    assert Render(done) + [] == Render(done);
  }

  // -------------------------------------------------------------------------
  // Logical lines
  // -------------------------------------------------------------------------

  /** The text of a line whose first literal is `p`. */
  lemma RenderAtLiteral(done: seq<Piece>, p: Piece, rest: seq<Piece>, tail: bytes)
    requires p.item.LiteralText?
    ensures var marker := Marker.Text(Decimal.Print(|p.item.octets|), p.item.plus);
            Render(done + [p] + rest) + CRLF + tail ==
            Render(done) + Gap(p.gap) + marker + CRLF + (p.item.octets + (Render(rest) + CRLF + tail))
  {
    hide Gap, Marker.Text, Decimal.Print, Render;
    var marker := Marker.Text(Decimal.Print(|p.item.octets|), p.item.plus);
    RenderAppend(done + [p], rest);
    RenderAppend(done, [p]);
    SinglePiece(p);
    Regroup(Render(done), Gap(p.gap), marker + CRLF, p.item.octets);
    var line := Render(done) + Gap(p.gap) + marker;
    assert line + CRLF == Render(done) + Gap(p.gap) + (marker + CRLF);
    Regroup(line + CRLF, p.item.octets, Render(rest), CRLF + tail);
    assert Render(done + [p] + rest) == line + CRLF + p.item.octets + Render(rest);
    assert Render(rest) + CRLF + tail == Render(rest) + (CRLF + tail);
    assert Render(done + [p] + rest) + CRLF + tail == Render(done + [p] + rest) + (CRLF + tail);
  }

  lemma SinglePiece(p: Piece)
    ensures Render([p]) == Gap(p.gap) + ItemText(p.item)
  {
    hide Gap, ItemText;
    assert Render([]) == [];
  }

  lemma Regroup(a: bytes, b: bytes, c: bytes, d: bytes)
    ensures a + (b + (c + d)) == a + b + c + d
  {
  }

  /** The scan of a line after its inline tokens `done`. */
  lemma {:induction false} ScanRest(done: seq<Piece>, todo: seq<Piece>, tail: bytes)
    requires ValidLine(done + todo) && Inline(done) && Fits(todo)
    ensures Scan(Render(done + todo) + CRLF + tail) == Parsed(Tokens(done + todo), |Render(done + todo)| + 2)
    decreases |todo|
  {
    hide Scan, Render, Tokens, ValidLine;
    if todo == [] {
      assert done + todo == done;
      ScanFinal(done, tail);
    } else if !todo[0].item.LiteralText? {
      assert done + todo == (done + [todo[0]]) + todo[1..];
      ScanRest(done + [todo[0]], todo[1..], tail);
    } else {
      assert done + todo == done + [todo[0]] + todo[1..];
      ValidParts(done, todo[0], todo[1..]);
      assert [] + todo[1..] == todo[1..];
      ScanRest([], todo[1..], tail);
      ScanLiteralThen(done, todo[0], todo[1..], tail);
      RenderAppend(done + [todo[0]], todo[1..]);
      TokensAppend(done + [todo[0]], todo[1..]);
    }
  }

  /** What the marker of a literal of `n` octets is refused with. */
  function MarkerError(n: nat): ParseError {
    if n <= Decimal.U32_MAX then LiteralTooLarge(n) else InvalidLiteralMarker
  }

  /** What a line is refused with: the error of its first literal too long to
      read. */
  function Refusal(pieces: seq<Piece>): ParseError
    requires !Fits(pieces)
  {
    var item := pieces[0].item;
    if item.LiteralText? && |item.octets| > MAX_LITERAL then MarkerError(|item.octets|) else Refusal(pieces[1..])
  }

  /** The scan refuses a line as soon as a literal is too long to read. */
  lemma {:induction false} ScanOversized(done: seq<Piece>, todo: seq<Piece>, tail: bytes)
    requires ValidLine(done + todo) && Inline(done) && !Fits(todo)
    ensures Scan(Render(done + todo) + CRLF + tail) == Failed(Refusal(todo))
    decreases |todo|
  {
    hide Scan, Render, Tokens, ValidLine;
    assert todo == [todo[0]] + todo[1..];
    if !todo[0].item.LiteralText? {
      assert done + todo == (done + [todo[0]]) + todo[1..];
      ScanOversized(done + [todo[0]], todo[1..], tail);
    } else {
      assert done + todo == done + [todo[0]] + todo[1..];
      ValidParts(done, todo[0], todo[1..]);
      ScanLiteralThen(done, todo[0], todo[1..], tail);
      if |todo[0].item.octets| <= MAX_LITERAL {
        assert [] + todo[1..] == todo[1..];
        ScanOversized([], todo[1..], tail);
      }
    }
  }

  /** Scanning undoes printing, and consumes exactly the printed line, if and
      only if no literal of the line exceeds the ceiling; otherwise the line is
      refused. */
  lemma ScanUndoesPrinting(pieces: seq<Piece>, tail: bytes)
    requires ValidLine(pieces)
    ensures Scan(Render(pieces) + CRLF + tail) == Parsed(Tokens(pieces), |Render(pieces) + CRLF|) <==> Fits(pieces)
    ensures !Fits(pieces) ==> Scan(Render(pieces) + CRLF + tail) == Failed(Refusal(pieces))
  {
    hide Scan, Render, Tokens, ValidLine, Fits;
    assert [] + pieces == pieces;
    if Fits(pieces) {
      ScanRest([], pieces, tail);
    } else {
      ScanOversized([], pieces, tail);
    }
  }

  lemma ValidParts(done: seq<Piece>, p: Piece, rest: seq<Piece>)
    requires ValidLine(done + [p] + rest)
    ensures ValidLine(done) && ValidLine(rest)
  {
    hide ValidItem;
    var all := done + [p] + rest;
    assert forall i :: 0 <= i < |done| ==> done[i] == all[i];
    assert forall i :: 0 <= i < |rest| ==> rest[i] == all[|done| + 1 + i];
  }

  lemma ScanFinal(done: seq<Piece>, tail: bytes)
    requires ValidLine(done) && Inline(done)
    ensures Scan(Render(done) + CRLF + tail) == Parsed(Tokens(done), |Render(done)| + 2)
  {
    hide FirstLine, Render, Tokens, ValidLine, Inline;
    FirstLineFinal(done, tail);
  }

  /** A literal that fits hands over its octets, and the scan goes on past
      them; one that does not is refused. */
  lemma ScanLiteralThen(done: seq<Piece>, p: Piece, rest: seq<Piece>, tail: bytes)
    requires ValidLine(done) && Inline(done) && p.item.LiteralText?
    ensures var buf, more := Render(done + [p] + rest) + CRLF + tail, Render(rest) + CRLF + tail;
            if |p.item.octets| <= MAX_LITERAL
            then Scan(buf) == PrependLine(Tokens(done + [p]), |Render(done + [p])|, Scan(more))
            else Scan(buf) == Failed(MarkerError(|p.item.octets|))
  {
    hide FirstLine, Render, Tokens, ValidLine, Inline, Marker.Text, Gap, Decimal.Print, LiteralSize, PrependLine;
    var marker := Marker.Text(Decimal.Print(|p.item.octets|), p.item.plus);
    var line := Render(done) + Gap(p.gap) + marker;
    var more := Render(rest) + CRLF + tail;
    RenderAtLiteral(done, p, rest, tail);
    LiteralExtent(done, p);
    MarkerStarts(|p.item.octets|, p.item.plus);
    Marker.PrintedMarker(|p.item.octets|, p.item.plus);
    FirstLineBeforeLiteral(done, p.gap, marker, p.item.octets + more);
    if |p.item.octets| <= MAX_LITERAL {
      ScanOverLiteral(line + CRLF, Tokens(done), p.item.octets, more);
    }
  }

  lemma LiteralExtent(done: seq<Piece>, p: Piece)
    requires p.item.LiteralText?
    ensures var marker := Marker.Text(Decimal.Print(|p.item.octets|), p.item.plus);
            |Render(done + [p])| == |Render(done) + Gap(p.gap) + marker| + 2 + |p.item.octets|
    ensures Tokens(done + [p]) == Tokens(done) + [String(p.item.octets)]
  {
    hide Gap, Marker.Text, Decimal.Print, Render, Tokens;
    RenderAppend(done, [p]);
    SinglePiece(p);
    TokensAppend(done, [p]);
    SingleToken(p);
  }

  lemma SingleToken(p: Piece)
    ensures Tokens([p]) == [ItemToken(p.item)]
  {
    assert Tokens([]) == [];
  }

  lemma MarkerStarts(n: nat, plus: bool)
    ensures var marker := Marker.Text(Decimal.Print(n), plus);
            marker != [] && marker[0] == LBRACE && LF !in marker
  {
    hide Decimal.Print;
    MarkerHasNoBreak(n, plus);
  }

  lemma ScanOverLiteral(line: bytes, tokens: seq<Token>, octets: bytes, more: bytes)
    requires FirstLine(line + (octets + more)) == BeforeLiteral(tokens, |line|, |octets|)
    ensures Scan(line + (octets + more)) == PrependLine(tokens + [String(octets)], |line| + |octets|, Scan(more))
  {
    hide FirstLine, PrependLine;
    var buf := line + (octets + more);
    assert buf[|line|..|line| + |octets|] == octets;
    assert buf[|line| + |octets|..] == more;
  }
}
