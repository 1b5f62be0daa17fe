/** Python's `str()` on the values the store compares: an integer renders
    as its decimal digits (with `-` when negative), a text as itself. */
module PyValue {
  import opened Bytes

  /** A field value or a query value: a Python `int` or `str`. */
  datatype Value = IntV(i: int) | StrV(s: seq<Byte>)

  const Minus: Byte := 45

  predicate IsDigit(b: Byte) {
    48 <= b <= 57
  }

  /** Decimal digits of `n` without leading zeros. */
  function DecimalNat(n: nat): (r: seq<Byte>)
    ensures |r| >= 1
  {
    if n < 10 then [(48 + n) as Byte] else DecimalNat(n / 10) + [(48 + n % 10) as Byte]
  }

  /** `str(n)` for an integer `n`. */
  function Decimal(n: int): seq<Byte> {
    if n < 0 then [Minus] + DecimalNat(-n) else DecimalNat(n)
  }

  /** `str(v)`. */
  function Str(v: Value): seq<Byte> {
    match v
    case IntV(i) => Decimal(i)
    case StrV(s) => s
  }

  /** The digits of a natural number are digits, and there is one of them
      exactly when the number is below ten. */
  lemma {:induction false} DecimalNatDigits(n: nat)
    ensures forall i :: 0 <= i < |DecimalNat(n)| ==> IsDigit(DecimalNat(n)[i])
    ensures |DecimalNat(n)| == 1 <==> n < 10
  {
    if n >= 10 {
      DecimalNatDigits(n / 10);
      var d := DecimalNat(n);
      assert d == DecimalNat(n / 10) + [(48 + n % 10) as Byte];
    }
  }

  /** `str(n)` starts with a minus sign exactly when `n` is negative. */
  lemma DecimalSign(n: int)
    ensures Decimal(n) != [] && (Decimal(n)[0] == Minus <==> n < 0)
  {
    if n >= 0 {
      DecimalNatDigits(n);
    }
  }

  lemma {:induction false} DecimalNatInjective(a: nat, b: nat)
    requires DecimalNat(a) == DecimalNat(b)
    ensures a == b
  {
    DecimalNatDigits(a);
    DecimalNatDigits(b);
    if a >= 10 && b >= 10 {
      var da, db := DecimalNat(a), DecimalNat(b);
      assert da[..|da| - 1] == DecimalNat(a / 10);
      assert db[..|db| - 1] == DecimalNat(b / 10);
      DecimalNatInjective(a / 10, b / 10);
      assert da[|da| - 1] == db[|db| - 1];
    }
  }

  /** Two integers print the same exactly when they are equal, so comparing
      `str()` renderings of integers is integer equality. */
  lemma DecimalInjective(a: int, b: int)
    ensures Decimal(a) == Decimal(b) <==> a == b
  {
    DecimalSign(a);
    DecimalSign(b);
    if Decimal(a) == Decimal(b) {
      if a < 0 && b < 0 {
        assert Decimal(a)[1..] == DecimalNat(-a);
        assert Decimal(b)[1..] == DecimalNat(-b);
        DecimalNatInjective(-a, -b);
      } else if a >= 0 && b >= 0 {
        DecimalNatInjective(a, b);
      }
    }
  }
}
