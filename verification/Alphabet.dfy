/** The letters of an encoded payload, bit by bit (section 4 of RFC 4648). */
module Alphabet {
  import opened Bytes
  import opened Base64

  const UPPER: string := "ABCDEFGHIJKLMNOPQRSTUVWXYZ"
  const LOWER: string := "abcdefghijklmnopqrstuvwxyz"
  const DIGITS: string := "0123456789"

  /** The alphabet, in the order of the numbers its letters stand for. */
  const ALPHABET: string := UPPER + LOWER + DIGITS + "+/"

  /** Bit `j` of a payload, the most significant bit of each octet first; past
      its end, zero. */
  function Bit(p: bytes, j: nat): (b: nat)
    ensures b < 2
  {
    if j / 8 < |p| then p[j / 8] / [128, 64, 32, 16, 8, 4, 2, 1][j % 8] % 2 else 0
  }

  /** The number that six bits make, from bit `6 * i` on. */
  function Six(p: bytes, i: nat): (s: nat)
    ensures s < 64
  {
    32 * Bit(p, 6 * i) + 16 * Bit(p, 6 * i + 1) + 8 * Bit(p, 6 * i + 2) + 4 * Bit(p, 6 * i + 3)
    + 2 * Bit(p, 6 * i + 4) + Bit(p, 6 * i + 5)
  }

  /** How many letters it takes to carry every bit. */
  function Letters(n: nat): nat {
    (8 * n + 5) / 6
  }

  // -------------------------------------------------------------------------
  // The alphabet
  // -------------------------------------------------------------------------

  lemma UpperAt(s: nat)
    requires s < |UPPER|
    ensures UPPER[s] as int == 65 + s
  {
  }

  lemma LowerAt(s: nat)
    requires s < |LOWER|
    ensures LOWER[s] as int == 97 + s
  {
  }

  lemma DigitAt(s: nat)
    requires s < |DIGITS|
    ensures DIGITS[s] as int == 48 + s
  {
  }

  lemma PartsOfAlphabet()
    ensures |UPPER| == |LOWER| == 26 && |DIGITS| == 10
  {
  }

  lemma LetterAt(s: nat)
    requires s < 64
    ensures |ALPHABET| == 64 && Letter(s) == ALPHABET[s] as int
  {
    hide UPPER, LOWER, DIGITS;
    PartsOfAlphabet();
    if s < 26 {
      UpperAt(s);
    } else if s < 52 {
      LowerAt(s - 26);
    } else if s < 62 {
      DigitAt(s - 52);
    }
  }

  // -------------------------------------------------------------------------
  // The bits
  // -------------------------------------------------------------------------

  lemma HalveByOne(a: nat)
    ensures a / 1 == 2 * (a / 2) + a / 1 % 2
  {
  }

  lemma HalveByTwo(a: nat)
    ensures a / 2 == 2 * (a / 4) + a / 2 % 2
  {
  }

  lemma HalveByFour(a: nat)
    ensures a / 4 == 2 * (a / 8) + a / 4 % 2
  {
  }

  lemma HalveByEight(a: nat)
    ensures a / 8 == 2 * (a / 16) + a / 8 % 2
  {
  }

  lemma HalveBySixteen(a: nat)
    ensures a / 16 == 2 * (a / 32) + a / 16 % 2
  {
  }

  lemma HalveByThirtyTwo(a: nat)
    ensures a / 32 == 2 * (a / 64) + a / 32 % 2
  {
  }

  lemma HalveBySixtyFour(a: nat)
    ensures a / 64 == 2 * (a / 128) + a / 64 % 2
  {
  }

  lemma Halves(a: byte)
    ensures a / 1 == a && a / 256 == 0
    ensures a == 2 * (a / 2) + a % 2 && a / 2 == 2 * (a / 4) + a / 2 % 2 && a / 4 == 2 * (a / 8) + a / 4 % 2
    ensures a / 8 == 2 * (a / 16) + a / 8 % 2 && a / 16 == 2 * (a / 32) + a / 16 % 2
    ensures a / 32 == 2 * (a / 64) + a / 32 % 2 && a / 64 == 2 * (a / 128) + a / 64 % 2
    ensures a / 128 == a / 128 % 2
  {
    HalveByOne(a);
    HalveByTwo(a);
    HalveByFour(a);
    HalveByEight(a);
    HalveBySixteen(a);
    HalveByThirtyTwo(a);
    HalveBySixtyFour(a);
  }

  /** An octet is the number its bits make, from either end. */
  lemma OctetBits(a: byte)
    ensures a / 4 == 32 * (a / 128 % 2) + 16 * (a / 64 % 2) + 8 * (a / 32 % 2) + 4 * (a / 16 % 2) + 2 * (a / 8 % 2)
                     + a / 4 % 2
    ensures a / 16 == 8 * (a / 128 % 2) + 4 * (a / 64 % 2) + 2 * (a / 32 % 2) + a / 16 % 2
    ensures a / 64 == 2 * (a / 128 % 2) + a / 64 % 2
    ensures a - a / 4 * 4 == 2 * (a / 2 % 2) + a / 1 % 2
    ensures a - a / 16 * 16 == 8 * (a / 8 % 2) + 4 * (a / 4 % 2) + 2 * (a / 2 % 2) + a / 1 % 2
    ensures a - a / 64 * 64 == 32 * (a / 32 % 2) + 16 * (a / 16 % 2) + 8 * (a / 8 % 2) + 4 * (a / 4 % 2)
                               + 2 * (a / 2 % 2) + a / 1 % 2
  {
    Halves(a);
  }

  /** The octet at `k`; past the end of the payload, zero. */
  function At(p: bytes, k: nat): byte {
    if k < |p| then p[k] else 0
  }

  lemma FirstBits(p: bytes, k: nat)
    ensures Bit(p, 8 * k) == At(p, k) / 128 % 2 && Bit(p, 8 * k + 1) == At(p, k) / 64 % 2
    ensures Bit(p, 8 * k + 2) == At(p, k) / 32 % 2 && Bit(p, 8 * k + 3) == At(p, k) / 16 % 2
    ensures Bit(p, 8 * k + 4) == At(p, k) / 8 % 2 && Bit(p, 8 * k + 5) == At(p, k) / 4 % 2
    ensures Bit(p, 8 * k + 6) == At(p, k) / 2 % 2 && Bit(p, 8 * k + 7) == At(p, k) / 1 % 2
  {
    assert (8 * k + 1) / 8 == k && (8 * k + 2) / 8 == k && (8 * k + 3) / 8 == k && (8 * k + 4) / 8 == k;
    assert (8 * k + 5) / 8 == k && (8 * k + 6) / 8 == k && (8 * k + 7) / 8 == k && 8 * k / 8 == k;
  }

  /** The first four letters carry the first three octets. */
  lemma FirstSixes(p: bytes)
    ensures var a, b, c := At(p, 0), At(p, 1), At(p, 2);
            && Six(p, 0) == a / 4 && Six(p, 1) == a % 4 * 16 + b / 16
            && Six(p, 2) == b % 16 * 4 + c / 64 && Six(p, 3) == c % 64
  {
    hide Bit, At;
    FirstBits(p, 0);
    FirstBits(p, 1);
    FirstBits(p, 2);
    OctetBits(At(p, 0));
    OctetBits(At(p, 1));
    OctetBits(At(p, 2));
  }

  /** Six bits past the first three octets are six bits of the rest. */
  lemma SixPast(p: bytes, i: nat)
    requires |p| >= 3
    ensures Six(p, i + 4) == Six(p[3..], i)
  {
    hide Bit;
    BitPast(p, 6 * i);
    BitPast(p, 6 * i + 1);
    BitPast(p, 6 * i + 2);
    BitPast(p, 6 * i + 3);
    BitPast(p, 6 * i + 4);
    BitPast(p, 6 * i + 5);
    assert 6 * (i + 4) == 6 * i + 24;
  }

  lemma BitPast(p: bytes, j: nat)
    requires |p| >= 3
    ensures Bit(p, j + 24) == Bit(p[3..], j)
  {
    assert (j + 24) / 8 == j / 8 + 3 && (j + 24) % 8 == j % 8;
  }

  // -------------------------------------------------------------------------
  // The encoding
  // -------------------------------------------------------------------------

  /** The letter at `i` stands for the six bits from `6 * i` on. */
  predicate Carries(p: bytes, t: bytes, i: nat)
    requires i < |t|
  {
    |ALPHABET| == 64 && t[i] == ALPHABET[Six(p, i)] as int
  }

  lemma GroupCarries(p: bytes)
    ensures forall i :: 0 <= i < 4 ==> Carries(p, Group(At(p, 0), At(p, 1), At(p, 2)), i)
  {
    hide Letter, ALPHABET, Six, At;
    FirstSixes(p);
    LetterAt(Six(p, 0));
    LetterAt(Six(p, 1));
    LetterAt(Six(p, 2));
    LetterAt(Six(p, 3));
  }

  /** Every letter of the text is the one its six bits number in the alphabet;
      the letters carry every bit, and the text is padded to whole groups of
      four. */
  predicate Encodes(t: bytes, p: bytes) {
    && Letters(|p|) <= |t| && |t| == (|p| + 2) / 3 * 4
    && (forall i :: 0 <= i < Letters(|p|) ==> Carries(p, t, i))
    && (forall i :: Letters(|p|) <= i < |t| ==> t[i] == '=' as int)
  }

  lemma {:induction false} EncodedBitByBit(p: bytes)
    ensures Encodes(Encode(p), p)
  {
    hide Group, Carries, Six;
    var t := Encode(p);
    GroupCarries(p);
    if p == [] {
    } else if |p| < 3 {
      ShortCarries(p);
    } else {
      hide Encode;
      EncodedBitByBit(p[3..]);
      EncodeStep(p);
      forall i | 0 <= i < Letters(|p|)
        ensures Carries(p, t, i)
      {
        if i < 4 {
          SameLetter(p, Group(At(p, 0), At(p, 1), At(p, 2)), t, i);
        } else {
          LaterLetter(p, Encode(p[3..]), t, i - 4);
        }
      }
    }
  }

  lemma EncodeStep(p: bytes)
    requires |p| >= 3
    ensures Encode(p) == Group(At(p, 0), At(p, 1), At(p, 2)) + Encode(p[3..])
    ensures Letters(|p|) == 4 + Letters(|p| - 3)
  {
    hide Group;
  }

  lemma SameLetter(p: bytes, g: bytes, t: bytes, i: nat)
    requires i < |g| && i < |t| && g[i] == t[i] && Carries(p, g, i)
    ensures Carries(p, t, i)
  {
    hide ALPHABET, Six;
  }

  lemma LaterLetter(p: bytes, rest: bytes, t: bytes, i: nat)
    requires |p| >= 3 && i < |rest| && i + 4 < |t| && t[i + 4] == rest[i] && Carries(p[3..], rest, i)
    ensures Carries(p, t, i + 4)
  {
    hide ALPHABET, Six;
    SixPast(p, i);
  }

  lemma ShortCarries(p: bytes)
    requires 0 < |p| < 3
    ensures var t, n := Encode(p), Letters(|p|);
            && n == |p| + 1 && |t| == 4
            && (forall i :: 0 <= i < n ==> Carries(p, t, i))
            && (forall i :: n <= i < |t| ==> t[i] == '=' as int)
  {
    hide Group, Carries, Six;
    GroupCarries(p);
    var g := Group(At(p, 0), At(p, 1), At(p, 2));
    forall i | 0 <= i < |p| + 1
      ensures Carries(p, Encode(p), i)
    {
      SameLetter(p, g, Encode(p), i);
    }
  }

  /** A text encodes a payload bit by bit if and only if it is its encoding. */
  lemma EncodedExactly(t: bytes, p: bytes)
    ensures t == Encode(p) <==> Encodes(t, p)
  {
    hide Encode, Six;
    EncodedBitByBit(p);
    if Encodes(t, p) {
      forall i | 0 <= i < |t|
        ensures t[i] == Encode(p)[i]
      {
        if i < Letters(|p|) {
          assert Carries(p, t, i) && Carries(p, Encode(p), i);
        }
      }
    }
  }

  /** And it decodes to that payload if and only if it does. */
  lemma DecodedExactly(t: bytes, p: bytes)
    ensures Decode(t) == Some(p) <==> Encodes(t, p)
  {
    hide Encode, Decode, Encodes;
    DecodeIffEncode(t, p);
    EncodedExactly(t, p);
  }
}
