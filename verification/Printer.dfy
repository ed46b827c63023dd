/** The printer of strings (src/utils.rs), and the lines its strings make up. */
module Printer {
  import opened Bytes
  import opened Scanner
  import Decimal
  import Marker

  /** How long a value may be, once escaped, and still travel quoted. */
  const QUOTED_MAX: nat := 1024

  predicate IsQuotedSpecial(b: byte) {
    b == QUOTE || b == BACKSLASH
  }

  function EscapeCount(value: bytes): nat {
    if value == [] then 0 else (if IsQuotedSpecial(value[0]) then 1 else 0) + EscapeCount(value[1..])
  }

  /** A backslash before each of the two quoted specials. */
  function Escape(value: bytes): (r: bytes)
    ensures |r| == |value| + EscapeCount(value)
  {
    if value == [] then []
    else (if IsQuotedSpecial(value[0]) then [BACKSLASH, value[0]] else [value[0]]) + Escape(value[1..])
  }

  function Enquote(value: bytes): bytes {
    [QUOTE] + Escape(value) + [QUOTE]
  }

  predicate HasControl(value: bytes) {
    exists i :: 0 <= i < |value| && IsControl(value[i])
  }

  /** A value travels quoted when it holds no control octet and its escaped
      form is short enough. */
  function Quote(value: bytes): Option<bytes> {
    if |Escape(value)| > QUOTED_MAX || HasControl(value) then None else Some(Enquote(value))
  }

  /** A value as a counted run of octets. */
  function Literal(value: bytes, plus: bool): bytes {
    Marker.Text(Decimal.Print(|value|), plus) + CRLF + value
  }

  /** A string argument: quotes around what can bear them, and the literal a
      client may send around anything else. */
  function StringOf(value: bytes): bytes {
    match Quote(value)
    case Some(quoted) => quoted
    case None => Literal(value, true)
  }

  lemma {:induction false} EscapeAppend(a: bytes, b: byte)
    ensures Escape(a + [b]) == Escape(a) + (if IsQuotedSpecial(b) then [BACKSLASH, b] else [b])
  {
    if a == [] {
      assert a + [b] == [b];
      assert Escape([b]) == (if IsQuotedSpecial(b) then [BACKSLASH, b] else [b]) + Escape([]);
    } else {
      assert (a + [b])[1..] == a[1..] + [b];
      EscapeAppend(a[1..], b);
    }
  }

  /** Renders a quoted string octet by octet. */
  method QuoteValue(value: bytes) returns (r: Option<bytes>)
    ensures r == Quote(value)
  {
    var escapes := EscapeCount(value);
    if |value| + escapes > QUOTED_MAX || exists i :: 0 <= i < |value| && IsControl(value[i]) {
      return None;
    }
    var quoted: bytes := [QUOTE];
    for index := 0 to |value|
      invariant quoted == [QUOTE] + Escape(value[..index])
    {
      var b := value[index];
      EscapeAppend(value[..index], b);
      assert value[..index] + [b] == value[..index + 1];
      if IsQuotedSpecial(b) {
        quoted := quoted + [BACKSLASH];
      }
      quoted := quoted + [b];
    }
    assert value[..|value|] == value;
    return Some(quoted + [QUOTE]);
  }

  // -------------------------------------------------------------------------
  // Lines as lists of printed tokens
  // -------------------------------------------------------------------------

  /** One printed token. A string may be written either way. */
  datatype Item =
    | Word(octets: bytes)
    | OpenParen
    | CloseParen
    | QuotedText(octets: bytes)
    | LiteralText(octets: bytes, plus: bool)

  /** A token and the spaces written before it. */
  datatype Piece = Piece(gap: nat, item: Item)

  function Gap(n: nat): bytes {
    if n == 0 then [] else [SPACE] + Gap(n - 1)
  }

  function ItemText(item: Item): bytes {
    match item
    case Word(octets) => octets
    case OpenParen => [LPAREN]
    case CloseParen => [RPAREN]
    case QuotedText(octets) => Enquote(octets)
    case LiteralText(octets, plus) => Literal(octets, plus)
  }

  function ItemToken(item: Item): Token {
    match item
    case Word(octets) => Atom(octets)
    case OpenParen => Open
    case CloseParen => Close
    case QuotedText(octets) => String(octets)
    case LiteralText(octets, _) => String(octets)
  }

  function Render(pieces: seq<Piece>): bytes {
    if pieces == [] then []
    else Gap(pieces[0].gap) + ItemText(pieces[0].item) + Render(pieces[1..])
  }

  function Tokens(pieces: seq<Piece>): (t: seq<Token>)
    ensures |t| == |pieces|
  {
    if pieces == [] then [] else [ItemToken(pieces[0].item)] + Tokens(pieces[1..])
  }

  predicate IsWord(octets: bytes) {
    octets != [] && forall i :: 0 <= i < |octets| ==> !IsAtomSpecial(octets[i])
  }

  /** An atom must be one, and a quoted string cannot hold a line break. */
  predicate ValidItem(item: Item) {
    match item
    case Word(octets) => IsWord(octets)
    case QuotedText(octets) => LF !in octets
    case _ => true
  }

  /** Every item is well formed, and two atoms in a row have a space between
      them. */
  predicate ValidLine(pieces: seq<Piece>) {
    && (forall i :: 0 <= i < |pieces| ==> ValidItem(pieces[i].item))
    && (forall i :: 0 <= i < |pieces| - 1 && pieces[i].item.Word? && pieces[i + 1].item.Word? ==> pieces[i + 1].gap > 0)
  }

  /** No literal is longer than a scanner reads. */
  predicate Fits(pieces: seq<Piece>) {
    forall i :: 0 <= i < |pieces| && pieces[i].item.LiteralText? ==> |pieces[i].item.octets| <= MAX_LITERAL
  }

  predicate Inline(pieces: seq<Piece>) {
    forall i :: 0 <= i < |pieces| ==> !pieces[i].item.LiteralText?
  }
}
