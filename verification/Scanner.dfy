/** The scanner of response lines (src/utils.rs).

    Line breaks inside a literal are content, so one line for the parser may
    take up several on the wire. The functions below say what a line is by
    peeling slices off the front of the text; the methods are the index
    arithmetic of the program, each proved equal to its function. */
module Scanner {
  import opened Bytes
  import Decimal

  /** The largest literal read before giving up. */
  const MAX_LITERAL: nat := 8 * 1024 * 1024

  /** The largest address of a 64-bit target, and the longest slice one may
      hold there. */
  const USIZE_MAX: nat := 0xFFFF_FFFF_FFFF_FFFF
  const ISIZE_MAX: nat := 0x7FFF_FFFF_FFFF_FFFF

  datatype ParseError =
    | EmptyLine
    | UnexpectedByte(b: byte)
    | UnterminatedQuoted
    | InvalidEscape(b: byte)
    | InvalidLiteralMarker
    | LiteralTooLarge(size: nat)
    | UnknownStatus(word: bytes)
    | UnterminatedResponseCode
    | EmptyResponseCode

  datatype Token =
    | String(octets: bytes)
    | Atom(octets: bytes)
    | Open
    | Close

  /** What an incremental parse answers: not yet, never, or a value and the
      number of octets it took. */
  datatype Parsed<+T> =
    | Incomplete
    | Failed(error: ParseError)
    | Parsed(value: T, consumed: nat)

  /** A quoted string and what follows its closing quote. */
  datatype Quoted = BadQuoted(error: ParseError) | Quoted(octets: bytes, rest: bytes)

  /** One physical line: its tokens, and how many octets of literal it says
      follow, if it says so. */
  datatype Lexed = BadSegment(error: ParseError) | Segment(tokens: seq<Token>, marker: Option<nat>)

  datatype Physical =
    | NoLine
    | BadLine(error: ParseError)
    | LineEnd(tokens: seq<Token>, taken: nat)
    | BeforeLiteral(tokens: seq<Token>, taken: nat, size: nat)

  predicate IsAtomSpecial(b: byte) {
    b == LPAREN || b == RPAREN || b == LBRACE || b == SPACE || b == QUOTE || b == BACKSLASH || IsControl(b)
  }

  // -------------------------------------------------------------------------
  // What a line is
  // -------------------------------------------------------------------------

  function PrependOctets(front: bytes, q: Quoted): Quoted {
    match q
    case BadQuoted(_) => q
    case Quoted(octets, rest) => Quoted(front + octets, rest)
  }

  /** Reads a quoted string from right after its opening quote. */
  function Unquote(text: bytes): (q: Quoted)
    ensures q.Quoted? ==> |q.octets| + |q.rest| < |text|
  {
    if text == [] then BadQuoted(UnterminatedQuoted)
    else if text[0] == QUOTE then Quoted([], text[1..])
    else if text[0] == BACKSLASH then
      if |text| == 1 then BadQuoted(UnterminatedQuoted)
      else if text[1] != QUOTE && text[1] != BACKSLASH then BadQuoted(InvalidEscape(text[1]))
      else PrependOctets([text[1]], Unquote(text[2..]))
    else PrependOctets([text[0]], Unquote(text[1..]))
  }

  /** The octet count announced by `{size}` or `{size+}`, which must take the
      whole of `marker`. */
  function LiteralSize(marker: bytes): (r: Result<nat, ParseError>)
    ensures r.Success? ==> r.value <= MAX_LITERAL
  {
    if |marker| < 2 || marker[0] != LBRACE || marker[|marker| - 1] != RBRACE then Failure(InvalidLiteralMarker)
    else
      var inner := marker[1..|marker| - 1];
      var digits := if inner != [] && inner[|inner| - 1] == PLUS then inner[..|inner| - 1] else inner;
      if digits == [] || !AllDigits(digits) then Failure(InvalidLiteralMarker)
      else
        match Decimal.ReadU32(digits)
        case None => Failure(InvalidLiteralMarker)
        case Some(size) => if size > MAX_LITERAL then Failure(LiteralTooLarge(size)) else Success(size)
  }

  /** How many octets at the front can sit in an atom. */
  function AtomLength(text: bytes): (n: nat)
    ensures n <= |text|
    ensures forall i :: 0 <= i < n ==> !IsAtomSpecial(text[i])
    ensures n < |text| ==> IsAtomSpecial(text[n])
  {
    if text == [] || IsAtomSpecial(text[0]) then 0 else 1 + AtomLength(text[1..])
  }

  function PrependTokens(front: seq<Token>, l: Lexed): Lexed {
    match l
    case BadSegment(_) => l
    case Segment(tokens, marker) => Segment(front + tokens, marker)
  }

  /** Lexes one physical line, its line break already removed. */
  function Lex(text: bytes): (l: Lexed)
    ensures l.Segment? && l.marker.Some? ==> l.marker.value <= MAX_LITERAL
    decreases |text|
  {
    if text == [] then Segment([], None)
    else if IsWhitespace(text[0]) then Lex(text[1..])
    else if text[0] == QUOTE then
      match Unquote(text[1..])
      case BadQuoted(e) => BadSegment(e)
      case Quoted(octets, rest) => PrependTokens([String(octets)], Lex(rest))
    else if text[0] == LBRACE then
      match LiteralSize(text)
      case Failure(e) => BadSegment(e)
      case Success(size) => Segment([], Some(size))
    else if text[0] == LPAREN then PrependTokens([Open], Lex(text[1..]))
    else if text[0] == RPAREN then PrependTokens([Close], Lex(text[1..]))
    else
      var n := AtomLength(text);
      if n == 0 then BadSegment(UnexpectedByte(text[0]))
      else PrependTokens([Atom(text[..n])], Lex(text[n..]))
  }

  /** Removes the carriage return of a CRLF. */
  function Chomp(line: bytes): bytes {
    if line != [] && line[|line| - 1] == CR then line[..|line| - 1] else line
  }

  function PrependLine(front: seq<Token>, taken: nat, p: Parsed<seq<Token>>): Parsed<seq<Token>> {
    match p
    case Parsed(tokens, n) => Parsed(front + tokens, taken + n)
    case other => other
  }

  /** The first physical line of `buf`: missing, malformed, the end of its
      logical line, or one that a literal of `size` octets follows. */
  function FirstLine(buf: bytes): (f: Physical)
    ensures f.LineEnd? ==> 0 < f.taken <= |buf|
    ensures f.BeforeLiteral? ==> 0 < f.taken <= |buf| && f.size <= MAX_LITERAL
  {
    match IndexOf(buf, LF)
    case None => NoLine
    case Some(eol) =>
      match Lex(Chomp(buf[..eol]))
      case BadSegment(e) => BadLine(e)
      case Segment(tokens, None) => LineEnd(tokens, eol + 1)
      case Segment(tokens, Some(size)) => BeforeLiteral(tokens, eol + 1, size)
  }

  /** The tokens of the line `buf` opens with. */
  function Scan(buf: bytes): (p: Parsed<seq<Token>>)
    ensures p.Parsed? ==> 0 < p.consumed <= |buf|
    decreases |buf|
  {
    match FirstLine(buf)
    case NoLine => Incomplete
    case BadLine(e) => Failed(e)
    case LineEnd(tokens, taken) => Parsed(tokens, taken)
    case BeforeLiteral(tokens, taken, size) =>
      if |buf| < taken + size then Incomplete
      else PrependLine(tokens + [String(buf[taken..taken + size])], taken + size, Scan(buf[taken + size..]))
  }

  // -------------------------------------------------------------------------
  // How the program finds one
  // -------------------------------------------------------------------------

  /** One octet of a quoted string, in terms of the whole segment. */
  lemma UnquoteAt(segment: bytes, index: nat)
    requires index < |segment|
    ensures Unquote(segment[index..]) ==
            if segment[index] == QUOTE then Quoted([], segment[index + 1..])
            else if segment[index] == BACKSLASH then
              if index + 1 == |segment| then BadQuoted(UnterminatedQuoted)
              else if segment[index + 1] != QUOTE && segment[index + 1] != BACKSLASH
              then BadQuoted(InvalidEscape(segment[index + 1]))
              else PrependOctets([segment[index + 1]], Unquote(segment[index + 2..]))
            else PrependOctets([segment[index]], Unquote(segment[index + 1..]))
  {
    hide PrependOctets;
    var text := segment[index..];
    assert text[1..] == segment[index + 1..];
    if |text| > 1 {
      assert text[2..] == segment[index + 2..];
    }
  }

  /** Reads a quoted string whose opening quote sits at `open`, answering its
      octets and the index past its closing quote. */
  method LexQuoted(segment: bytes, open: nat) returns (r: Result<(bytes, nat), ParseError>)
    requires open < |segment|
    ensures match Unquote(segment[open + 1..])
            case BadQuoted(e) => r == Failure(e)
            case Quoted(octets, rest) =>
              r.Success? && r.value.0 == octets && open < r.value.1 <= |segment| && segment[r.value.1..] == rest
  {
    var octets: bytes := [];
    var index := open + 1;
    PrependNoOctets(Unquote(segment[index..]));
    while index < |segment|
      invariant open < index <= |segment|
      invariant Unquote(segment[open + 1..]) == PrependOctets(octets, Unquote(segment[index..]))
    {
      hide Unquote;
      UnquoteAt(segment, index);
      if segment[index] == QUOTE {
        return Success((octets, index + 1));
      } else if segment[index] == BACKSLASH {
        if index + 1 >= |segment| {
          return Failure(UnterminatedQuoted);
        }
        var b := segment[index + 1];
        if b != QUOTE && b != BACKSLASH {
          return Failure(InvalidEscape(b));
        }
        PrependOctetsTwice(octets, [b], Unquote(segment[index + 2..]));
        octets := octets + [b];
        index := index + 2;
      } else {
        PrependOctetsTwice(octets, [segment[index]], Unquote(segment[index + 1..]));
        octets := octets + [segment[index]];
        index := index + 1;
      }
    }
    assert segment[index..] == [];
    return Failure(UnterminatedQuoted);
  }

  lemma PrependNoOctets(q: Quoted)
    ensures PrependOctets([], q) == q
  {
    if q.Quoted? {
      assert [] + q.octets == q.octets;
    }
  }

  lemma PrependOctetsTwice(a: bytes, b: bytes, q: Quoted)
    ensures PrependOctets(a, PrependOctets(b, q)) == PrependOctets(a + b, q)
  {
    if q.Quoted? {
      assert a + (b + q.octets) == (a + b) + q.octets;
    }
  }

  lemma PrependTokensTwice(a: seq<Token>, b: seq<Token>, l: Lexed)
    ensures PrependTokens(a, PrependTokens(b, l)) == PrependTokens(a + b, l)
  {
    if l.Segment? {
      assert a + (b + l.tokens) == (a + b) + l.tokens;
    }
  }

  /** Lexes one physical segment, advancing an index over it. */
  method LexSegment(segment: bytes) returns (r: Lexed)
    ensures r == Lex(segment)
  {
    var tokens: seq<Token> := [];
    var index := 0;
    assert segment[0..] == segment;
    while index < |segment|
      invariant 0 <= index <= |segment|
      invariant Lex(segment) == PrependTokens(tokens, Lex(segment[index..]))
    {
      var b := segment[index];
      if IsWhitespace(b) {
        index := index + 1;
      } else if b == QUOTE {
        var q := LexQuoted(segment, index);
        match q {
          case Failure(e) => return BadSegment(e);
          case Success((octets, next)) =>
            PrependTokensTwice(tokens, [String(octets)], Lex(segment[next..]));
            tokens := tokens + [String(octets)];
            index := next;
        }
      } else if b == LBRACE {
        match LiteralSize(segment[index..]) {
          case Failure(e) => return BadSegment(e);
          case Success(size) => return Segment(tokens, Some(size));
        }
      } else if b == LPAREN {
        PrependTokensTwice(tokens, [Open], Lex(segment[index + 1..]));
        tokens := tokens + [Open];
        index := index + 1;
      } else if b == RPAREN {
        PrependTokensTwice(tokens, [Close], Lex(segment[index + 1..]));
        tokens := tokens + [Close];
        index := index + 1;
      } else {
        var next := AtomEnd(segment, index);
        if next == index {
          return BadSegment(UnexpectedByte(b));
        }
        PrependTokensTwice(tokens, [Atom(segment[index..next])], Lex(segment[next..]));
        tokens := tokens + [Atom(segment[index..next])];
        index := next;
      }
    }
    assert segment[index..] == [];
    return Segment(tokens, None);
  }

  /** The index of the first octet from `start` on that no atom can hold. */
  method AtomEnd(segment: bytes, start: nat) returns (end: nat)
    requires start <= |segment|
    ensures start <= end <= |segment|
    ensures end == start + AtomLength(segment[start..])
    ensures segment[start..][..end - start] == segment[start..end]
    ensures segment[start..][end - start..] == segment[end..]
  {
    end := start;
    while end < |segment| && !IsAtomSpecial(segment[end])
      invariant start <= end <= |segment|
      invariant AtomLength(segment[start..]) == end - start + AtomLength(segment[end..])
    {
      end := end + 1;
    }
  }

  lemma PrependLineTwice(a: seq<Token>, i: nat, b: seq<Token>, j: nat, p: Parsed<seq<Token>>)
    ensures PrependLine(a, i, PrependLine(b, j, p)) == PrependLine(a + b, i + j, p)
  {
    if p.Parsed? {
      assert a + (b + p.value) == (a + b) + p.value;
    }
  }

  lemma PrependNothing(p: Parsed<seq<Token>>)
    ensures PrependLine([], 0, p) == p
  {
    if p.Parsed? {
      assert [] + p.value == p.value;
    }
  }

  lemma ChompAt(buf: bytes, index: nat, eol: nat, end: nat)
    requires index <= eol <= |buf|
    requires end == if eol > index && buf[eol - 1] == CR then eol - 1 else eol
    ensures Chomp(buf[index..eol]) == buf[index..end]
  {
  }

  /** The physical line starting at `index`, in terms of the whole buffer. */
  lemma FirstLineAt(buf: bytes, index: nat, eol: nat, end: nat)
    requires index <= eol < |buf| && IndexOf(buf[index..], LF) == Some(eol - index)
    requires end == if eol > index && buf[eol - 1] == CR then eol - 1 else eol
    ensures FirstLine(buf[index..]) ==
            match Lex(buf[index..end])
            case BadSegment(e) => BadLine(e)
            case Segment(tokens, None) => LineEnd(tokens, eol + 1 - index)
            case Segment(tokens, Some(size)) => BeforeLiteral(tokens, eol + 1 - index, size)
  {
    hide Lex, IndexOf;
    assert buf[index..][..eol - index] == buf[index..eol];
    ChompAt(buf, index, eol, end);
  }

  /** One turn of the scan past a literal, in terms of the whole buffer. */
  lemma ScanPastLiteral(buf: bytes, index: nat, start: nat, stop: nat)
    requires index < start <= stop <= |buf|
    requires FirstLine(buf[index..]).BeforeLiteral?
    requires FirstLine(buf[index..]).taken == start - index && FirstLine(buf[index..]).size == stop - start
    ensures Scan(buf[index..]) ==
            PrependLine(FirstLine(buf[index..]).tokens + [String(buf[start..stop])], stop - index, Scan(buf[stop..]))
  {
    hide FirstLine;
    var text := buf[index..];
    assert text[start - index..stop - index] == buf[start..stop];
    assert text[stop - index..] == buf[stop..];
  }

  /** Without a line feed there is no line yet. */
  lemma ScanNoLine(buf: bytes, index: nat)
    requires index <= |buf| && IndexOf(buf[index..], LF).None?
    ensures Scan(buf[index..]) == Incomplete
  {
  }

  /** One turn of the scan, in terms of the whole buffer. */
  lemma ScanTurn(buf: bytes, index: nat, eol: nat, end: nat)
    requires index <= eol < |buf| && IndexOf(buf[index..], LF) == Some(eol - index)
    requires end == if eol > index && buf[eol - 1] == CR then eol - 1 else eol
    ensures match Lex(buf[index..end])
            case BadSegment(e) => Scan(buf[index..]) == Failed(e)
            case Segment(tokens, None) => Scan(buf[index..]) == Parsed(tokens, eol + 1 - index)
            case Segment(tokens, Some(size)) =>
              var start, stop := eol + 1, eol + 1 + size;
              Scan(buf[index..]) ==
              if |buf| < stop then Incomplete
              else PrependLine(tokens + [String(buf[start..stop])], stop - index, Scan(buf[stop..]))
  {
    hide Lex, IndexOf, FirstLine, PrependLine;
    FirstLineAt(buf, index, eol, end);
    var lexed := Lex(buf[index..end]);
    if lexed.Segment? && lexed.marker.Some? && eol + 1 + lexed.marker.value <= |buf| {
      ScanPastLiteral(buf, index, eol + 1, eol + 1 + lexed.marker.value);
    }
  }

  /** Reads one logical line, resuming after each literal. The arm for an
      address overflow is never taken: no slice is longer than half of the
      address space, and a literal is small. */
  method ScanLine(buf: bytes) returns (r: Parsed<seq<Token>>)
    requires |buf| <= ISIZE_MAX
    ensures r == Scan(buf)
  {
    hide Lex, IndexOf, Scan;
    var tokens: seq<Token> := [];
    var index := 0;
    assert buf[0..] == buf;
    PrependNothing(Scan(buf));
    while true
      invariant 0 <= index <= |buf|
      invariant Scan(buf) == PrependLine(tokens, index, Scan(buf[index..]))
      decreases |buf| - index
    {
      var offset := IndexOf(buf[index..], LF);
      if offset.None? {
        ScanNoLine(buf, index);
        return Incomplete;
      }
      var eol := index + offset.value;
      var end := eol;
      if end > index && buf[end - 1] == CR {
        end := end - 1;
      }
      ScanTurn(buf, index, eol, end);
      var lexed := LexSegment(buf[index..end]);
      if lexed.BadSegment? {
        return Failed(lexed.error);
      }
      if lexed.marker.None? {
        return Parsed(tokens + lexed.tokens, eol + 1);
      }
      var size := lexed.marker.value;
      var start := eol + 1;
      if start + size > USIZE_MAX {
        assert false;
      }
      var stop := start + size;
      if |buf| < stop {
        return Incomplete;
      }
      var more := lexed.tokens + [String(buf[start..stop])];
      PrependLineTwice(tokens, index, more, stop - index, Scan(buf[stop..]));
      tokens := tokens + more;
      index := stop;
    }
  }
}
