/** The base64 transport encoding of section 4 of RFC 4648, padded and
    canonical, as the AUTHENTICATE exchange carries its payloads. */
module Base64 {
  import opened Bytes

  const PAD: byte := 61

  function Letter(s: nat): byte
    requires s < 64
  {
    if s < 26 then 65 + s
    else if s < 52 then 71 + s
    else if s < 62 then s - 4
    else if s == 62 then PLUS
    else SLASH
  }

  function Sextet(b: byte): (r: Option<nat>)
    ensures r.Some? ==> r.value < 64 && Letter(r.value) == b
  {
    if 65 <= b <= 90 then Some(b - 65)
    else if 97 <= b <= 122 then Some(b - 71)
    else if IsDigit(b) then Some(b + 4)
    else if b == PLUS then Some(62)
    else if b == SLASH then Some(63)
    else None
  }

  lemma SextetOfLetter(s: nat)
    requires s < 64
    ensures Sextet(Letter(s)) == Some(s) && Letter(s) != PAD
  {
  }

  /** Three octets as four letters; missing octets count as zero. */
  function Group(a: byte, b: byte, c: byte): (g: bytes)
    ensures |g| == 4
  {
    [Letter(a / 4), Letter(a % 4 * 16 + b / 16), Letter(b % 16 * 4 + c / 64), Letter(c % 64)]
  }

  function Encode(p: bytes): (t: bytes) {
    if p == [] then []
    else if |p| == 1 then Group(p[0], 0, 0)[..2] + [PAD, PAD]
    else if |p| == 2 then Group(p[0], p[1], 0)[..3] + [PAD]
    else Group(p[0], p[1], p[2]) + Encode(p[3..])
  }

  /** Four letters as three octets. */
  function Ungroup(t: bytes): (r: Option<bytes>)
    requires |t| == 4
    ensures r.Some? ==> |r.value| == 3
  {
    match (Sextet(t[0]), Sextet(t[1]), Sextet(t[2]), Sextet(t[3]))
    case (Some(w), Some(x), Some(y), Some(z)) => Some([w * 4 + x / 16, x % 16 * 16 + y / 4, y % 4 * 64 + z])
    case _ => None
  }

  /** Padding ends the text, fills the last group exactly, and no bit is set
      that an encoder leaves clear. */
  function Decode(t: bytes): (r: Option<bytes>) {
    if t == [] then Some([])
    else if |t| < 4 then None
    else if |t| == 4 && t[3] == PAD then
      var kept := if t[2] == PAD then 1 else 2;
      match Ungroup(t[..kept + 1] + [65, 65, 65][..3 - kept])
      case None => None
      case Some(p) => if p[2] == 0 && (kept == 2 || p[1] == 0) then Some(p[..kept]) else None
    else
      match (Ungroup(t[..4]), Decode(t[4..]))
      case (Some(p), Some(rest)) => Some(p + rest)
      case _ => None
  }

  lemma UngroupOfGroup(a: byte, b: byte, c: byte)
    ensures Ungroup(Group(a, b, c)) == Some([a, b, c])
  {
    hide Letter, Sextet;
    SextetOfLetter(a / 4);
    SextetOfLetter(a % 4 * 16 + b / 16);
    SextetOfLetter(b % 16 * 4 + c / 64);
    SextetOfLetter(c % 64);
    Rejoin(a, 4, 16, b / 16);
    Rejoin(b, 16, 4, c / 64);
  }

  /** A quotient and the remainder packed above `low` put the octet back. */
  lemma Rejoin(a: byte, unit: nat, room: nat, low: nat)
    requires (unit == 4 && room == 16) || (unit == 16 && room == 4)
    requires low < room
    ensures (a % unit * room + low) / room == a % unit
    ensures (a % unit * room + low) % room == low
    ensures a / unit * unit + a % unit == a
  {
  }

  lemma GroupOfUngroup(t: bytes)
    requires |t| == 4 && Ungroup(t).Some?
    ensures var p := Ungroup(t).value; Group(p[0], p[1], p[2]) == t
  {
    hide Letter, Sextet;
    var w, x, y, z := Sextet(t[0]).value, Sextet(t[1]).value, Sextet(t[2]).value, Sextet(t[3]).value;
    var p := Ungroup(t).value;
    assert p[0] / 4 == w && p[0] % 4 == x / 16;
    assert p[1] / 16 == x % 16 && p[1] % 16 == y / 4;
    assert p[2] / 64 == y % 4 && p[2] % 64 == z;
    assert t == [t[0], t[1], t[2], t[3]];
  }

  /** Decoding undoes encoding. */
  lemma {:induction false} DecodeOfEncode(p: bytes)
    ensures Decode(Encode(p)) == Some(p)
  {
    hide Sextet, Ungroup;
    var t := Encode(p);
    if p == [] {
    } else if |p| == 1 {
      var g := Group(p[0], 0, 0);
      UngroupOfGroup(p[0], 0, 0);
      SextetOfLetter(p[0] % 4 * 16);
      assert t[..2] + [65, 65, 65][..2] == g;
      assert [p[0], 0, 0][..1] == p;
    } else if |p| == 2 {
      var g := Group(p[0], p[1], 0);
      UngroupOfGroup(p[0], p[1], 0);
      SextetOfLetter(p[1] % 16 * 4);
      assert t[..3] + [65, 65, 65][..1] == g;
      assert [p[0], p[1], 0][..2] == p;
    } else {
      var g := Group(p[0], p[1], p[2]);
      UngroupOfGroup(p[0], p[1], p[2]);
      SextetOfLetter(p[2] % 64);
      DecodeOfEncode(p[3..]);
      assert t[..4] == g && t[4..] == Encode(p[3..]);
      assert p == [p[0], p[1], p[2]] + p[3..];
    }
  }

  lemma EncodeOfPadded(t: bytes)
    requires |t| == 4 && t[3] == PAD && Decode(t).Some?
    ensures Encode(Decode(t).value) == t
  {
    hide Letter, Sextet, Ungroup, Group;
    var kept := if t[2] == PAD then 1 else 2;
    var full := t[..kept + 1] + [65, 65, 65][..3 - kept];
    GroupOfUngroup(full);
    var p := Ungroup(full).value;
    assert p[2] == 0;
    assert full[..kept + 1] == t[..kept + 1];
    if kept == 1 {
      assert p[1] == 0;
      assert t == t[..2] + [PAD, PAD];
    } else {
      assert t == t[..3] + [PAD];
    }
  }

  /** Only the encoding of a payload decodes to it. */
  lemma {:induction false} EncodeOfDecode(t: bytes)
    requires Decode(t).Some?
    ensures Encode(Decode(t).value) == t
  {
    hide Letter, Sextet, Ungroup, Group;
    if t == [] {
    } else if |t| == 4 && t[3] == PAD {
      EncodeOfPadded(t);
    } else {
      GroupOfUngroup(t[..4]);
      EncodeOfDecode(t[4..]);
      var p, rest := Ungroup(t[..4]).value, Decode(t[4..]).value;
      assert (p + rest)[3..] == rest;
      assert t == t[..4] + t[4..];
    }
  }

  /** A text decodes to a payload if and only if it is its encoding. */
  lemma DecodeIffEncode(t: bytes, p: bytes)
    ensures Decode(t) == Some(p) <==> t == Encode(p)
  {
    hide Decode, Encode;
    if Decode(t).Some? {
      EncodeOfDecode(t);
    }
    DecodeOfEncode(p);
  }

  predicate InAlphabet(b: byte) {
    Sextet(b).Some? || b == PAD
  }

  lemma {:induction false} EncodeAlphabet(p: bytes)
    ensures forall i :: 0 <= i < |Encode(p)| ==> InAlphabet(Encode(p)[i])
  {
    if |p| >= 3 {
      GroupAlphabet(p[0], p[1], p[2]);
      EncodeAlphabet(p[3..]);
    } else if |p| == 2 {
      GroupAlphabet(p[0], p[1], 0);
    } else if |p| == 1 {
      GroupAlphabet(p[0], 0, 0);
    }
  }

  lemma GroupAlphabet(a: byte, b: byte, c: byte)
    ensures forall i :: 0 <= i < 4 ==> InAlphabet(Group(a, b, c)[i])
  {
    SextetOfLetter(a / 4);
    SextetOfLetter(a % 4 * 16 + b / 16);
    SextetOfLetter(b % 16 * 4 + c / 64);
    SextetOfLetter(c % 64);
  }
}
