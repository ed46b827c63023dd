/** Exactly which literal markers are read, and as what. */
module Marker {
  import opened Bytes
  import opened Scanner
  import Decimal

  /** `{digits}` or `{digits+}`. */
  function Text(digits: bytes, plus: bool): bytes {
    [LBRACE] + digits + (if plus then [PLUS] else []) + [RBRACE]
  }

  /** Over digit strings of any length and any number of leading zeros, a
      marker falls in one of three classes by the number it denotes. */
  lemma MarkerTrichotomy(digits: bytes, plus: bool)
    requires digits != [] && AllDigits(digits)
    ensures var v := Decimal.Value(digits);
            LiteralSize(Text(digits, plus)) ==
            if v <= 8 * 1024 * 1024 then Success(v)
            else if v <= 4_294_967_295 then Failure(LiteralTooLarge(v))
            else Failure(InvalidLiteralMarker)
  {
    hide Decimal.Value, Decimal.ReadU32;
    var marker := Text(digits, plus);
    var inner := marker[1..|marker| - 1];
    if plus {
      assert inner == digits + [PLUS];
      assert inner[..|inner| - 1] == digits;
    } else {
      assert inner == digits;
      assert IsDigit(inner[|inner| - 1]);
    }
    Decimal.ReadU32IsValue(digits);
  }

  /** Nothing else is a marker at all. */
  lemma MarkerShape(marker: bytes) returns (digits: bytes, plus: bool)
    requires LiteralSize(marker) != Failure(InvalidLiteralMarker)
    ensures digits != [] && AllDigits(digits) && marker == Text(digits, plus)
  {
    hide Decimal.ReadU32;
    var inner := marker[1..|marker| - 1];
    assert marker == [LBRACE] + inner + [RBRACE];
    plus := inner != [] && inner[|inner| - 1] == PLUS;
    digits := if plus then inner[..|inner| - 1] else inner;
    if plus {
      assert inner == digits + [PLUS];
    }
  }

  /** A marker is accepted as `v` if and only if it spells `v` and `v` is at most
      8 MiB. */
  lemma MarkerAccepted(marker: bytes, v: nat)
    ensures LiteralSize(marker) == Success(v) <==>
            v <= 8 * 1024 * 1024
            && exists digits: bytes, plus ::
                 AllDigits(digits) && digits != [] && marker == Text(digits, plus) && Decimal.Value(digits) == v
  {
    hide LiteralSize, Text, Decimal.Value;
    if LiteralSize(marker) == Success(v) {
      var digits, plus := MarkerShape(marker);
      MarkerTrichotomy(digits, plus);
    }
    forall digits: bytes, plus | AllDigits(digits) && digits != [] && marker == Text(digits, plus)
      ensures Decimal.Value(digits) == v && v <= MAX_LITERAL ==> LiteralSize(marker) == Success(v)
    {
      MarkerTrichotomy(digits, plus);
    }
  }

  /** The marker a printer writes before `n` octets. */
  lemma {:induction false} PrintedMarker(n: nat, plus: bool)
    ensures LiteralSize(Text(Decimal.Print(n), plus)) ==
            if n <= MAX_LITERAL then Success(n)
            else if n <= Decimal.U32_MAX then Failure(LiteralTooLarge(n))
            else Failure(InvalidLiteralMarker)
  {
    Decimal.ValueOfPrint(n);
    MarkerTrichotomy(Decimal.Print(n), plus);
  }
}
