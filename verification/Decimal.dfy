/** Unsigned decimal numbers, as literal markers and sizes carry them. */
module Decimal {
  import opened Bytes

  const U32_MAX: nat := 0xFFFF_FFFF

  /** The decimal rendering of a number, without leading zeros. */
  function Print(n: nat): (d: bytes)
    ensures d != [] && AllDigits(d)
  {
    if n < 10 then [48 + n] else Print(n / 10) + [48 + n % 10]
  }

  /** The number a digit string denotes, leading zeros allowed. */
  function Value(d: bytes): nat
    requires AllDigits(d)
  {
    if d == [] then 0 else Value(d[..|d| - 1]) * 10 + (d[|d| - 1] - 48)
  }

  /** A 32-bit read of a digit string: every step is checked, and the first
      one that overflows gives up. */
  function ReadU32(d: bytes): Option<nat>
    requires AllDigits(d)
  {
    if d == [] then Some(0)
    else
      match ReadU32(d[..|d| - 1])
      case None => None
      case Some(v) =>
        if v * 10 > U32_MAX then None
        else if v * 10 + (d[|d| - 1] - 48) > U32_MAX then None
        else Some(v * 10 + (d[|d| - 1] - 48))
  }

  /** The checked read fails exactly on the numbers that do not fit, however
      many leading zeros precede them. */
  lemma {:induction false} ReadU32IsValue(d: bytes)
    requires AllDigits(d)
    ensures ReadU32(d) == if Value(d) <= U32_MAX then Some(Value(d)) else None
  {
    if d != [] {
      ReadU32IsValue(d[..|d| - 1]);
    }
  }

  /** Printing then reading is the identity. */
  lemma {:induction false} ValueOfPrint(n: nat)
    ensures Value(Print(n)) == n
  {
    if n >= 10 {
      ValueOfPrint(n / 10);
      var d := Print(n);
      assert d[..|d| - 1] == Print(n / 10);
    }
  }

  lemma PrintInjective(m: nat, n: nat)
    requires Print(m) == Print(n)
    ensures m == n
  {
    ValueOfPrint(m);
    ValueOfPrint(n);
  }

  /** A number below ten to the k prints in at most k digits. */
  lemma {:induction false} PrintLength(n: nat, k: nat)
    requires 0 < k && n < Power10(k)
    ensures |Print(n)| <= k
  {
    if n >= 10 {
      PrintLength(n / 10, k - 1);
    }
  }

  function Power10(k: nat): nat {
    if k == 0 then 1 else 10 * Power10(k - 1)
  }
}
