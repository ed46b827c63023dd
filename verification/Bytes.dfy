/** Octets, the few ASCII classes the wire grammar is written in, and the
    outcome types shared by every layer. */
module Bytes {

  type byte = b: int | 0 <= b < 256

  type bytes = seq<byte>

  datatype Option<+T> = None | Some(value: T)

  datatype Result<+T, +E> = Success(value: T) | Failure(error: E)

  const TAB: byte := 9
  const LF: byte := 10
  const FF: byte := 12
  const CR: byte := 13
  const SPACE: byte := 32
  const QUOTE: byte := 34
  const LPAREN: byte := 40
  const RPAREN: byte := 41
  const STAR: byte := 42
  const PLUS: byte := 43
  const SLASH: byte := 47
  const BACKSLASH: byte := 92
  const LBRACE: byte := 123
  const RBRACE: byte := 125
  const DEL: byte := 127

  const CRLF: bytes := [CR, LF]

  /** The ASCII whitespace bytes; vertical tab is not one of them. */
  predicate IsWhitespace(b: byte) {
    b == SPACE || b == TAB || b == LF || b == FF || b == CR
  }

  predicate IsControl(b: byte) {
    b < SPACE || b == DEL
  }

  predicate IsDigit(b: byte) {
    48 <= b <= 57
  }

  predicate AllDigits(s: bytes) {
    forall i :: 0 <= i < |s| ==> IsDigit(s[i])
  }

  /** An ASCII literal as octets. */
  function Ascii(s: string): (r: bytes)
    ensures |r| == |s|
  {
    seq(|s|, i requires 0 <= i < |s| => (s[i] as int) % 256)
  }

  function ToLower(b: byte): byte {
    if 65 <= b <= 90 then b + 32 else b
  }

  /** Equality up to ASCII case. */
  predicate EqIgnoreCase(s: bytes, t: bytes) {
    |s| == |t| && forall i :: 0 <= i < |s| ==> ToLower(s[i]) == ToLower(t[i])
  }

  /** The first position holding `b`. */
  function IndexOf(s: bytes, b: byte): (r: Option<nat>)
    ensures r.Some? ==> r.value < |s| && s[r.value] == b && b !in s[..r.value]
    ensures r.None? ==> b !in s
  {
    if s == [] then None
    else if s[0] == b then Some(0)
    else
      match IndexOf(s[1..], b)
      case None => None
      case Some(i) =>
        assert s[..i + 1] == [s[0]] + s[1..][..i];
        Some(i + 1)
  }

  /** `IndexOf` is the only position with a hit and nothing before it. */
  lemma {:induction false} IndexOfIs(s: bytes, b: byte, i: nat)
    requires i < |s| && s[i] == b && b !in s[..i]
    ensures IndexOf(s, b) == Some(i)
  {
    if i > 0 {
      assert s[..i] == [s[0]] + s[1..][..i - 1];
      IndexOfIs(s[1..], b, i - 1);
    }
  }

  /** Concatenation of the chunks a stream was cut into. */
  function Flatten(chunks: seq<bytes>): (s: bytes) {
    if chunks == [] then [] else chunks[0] + Flatten(chunks[1..])
  }

  predicate NonEmptyChunks(chunks: seq<bytes>) {
    forall i :: 0 <= i < |chunks| ==> chunks[i] != []
  }

  lemma {:induction false} FlattenAppend(a: seq<bytes>, b: seq<bytes>)
    ensures Flatten(a + b) == Flatten(a) + Flatten(b)
  {
    if a == [] {
      assert a + b == b;
    } else {
      assert (a + b)[1..] == a[1..] + b;
      FlattenAppend(a[1..], b);
    }
  }

  lemma FlattenSplit(chunks: seq<bytes>, k: nat)
    requires k <= |chunks|
    ensures Flatten(chunks) == Flatten(chunks[..k]) + Flatten(chunks[k..])
  {
    assert chunks == chunks[..k] + chunks[k..];
    FlattenAppend(chunks[..k], chunks[k..]);
  }

  lemma FlattenGrows(chunks: seq<bytes>, i: nat, j: nat)
    requires i <= j <= |chunks|
    ensures |Flatten(chunks[..i])| <= |Flatten(chunks[..j])|
    ensures Flatten(chunks[..j]) == Flatten(chunks[..i]) + Flatten(chunks[i..j])
  {
    assert chunks[..j] == chunks[..i] + chunks[i..j];
    FlattenAppend(chunks[..i], chunks[i..j]);
  }

  lemma FlattenSnoc(chunks: seq<bytes>, chunk: bytes)
    ensures Flatten(chunks + [chunk]) == Flatten(chunks) + chunk
  {
    FlattenAppend(chunks, [chunk]);
    assert Flatten([chunk]) == chunk + Flatten([chunk][1..]) == chunk;
  }
}
