/** Numbers written with digits. */
module Decimal {
  import opened Streams

  predicate IsDigitIn(c: byte, base: nat) {
    48 <= c < 48 + base
  }

  predicate AllDigits(ds: seq<byte>, base: nat) {
    forall k :: 0 <= k < |ds| ==> IsDigitIn(ds[k], base)
  }

  /** The number that a digit string stands for. */
  function Value(ds: seq<byte>, base: nat): nat
    requires AllDigits(ds, base)
  {
    if ds == [] then 0 else Value(ds[..|ds| - 1], base) * base + (ds[|ds| - 1] - 48)
  }

  /** The decimal digits of a number, without leading zeros. */
  function Digits(n: nat): (ds: seq<byte>)
    ensures ds != [] && AllDigits(ds, 10)
  {
    if n < 10 then [(48 + n) as byte] else Digits(n / 10) + [(48 + n % 10) as byte]
  }

  function Pow10(k: nat): nat {
    if k == 0 then 1 else 10 * Pow10(k - 1)
  }

  /** Reading what was written gives the number back, and a leading zero means zero. */
  lemma {:induction false} DigitsRoundTrip(n: nat)
    ensures Value(Digits(n), 10) == n
    ensures Digits(n)[0] == 48 <==> n == 0
  {
    var ds := Digits(n);
    if n < 10 {
      assert ds[..0] == [];
      assert Value(ds[..0], 10) == 0;
    } else {
      DigitsRoundTrip(n / 10);
      assert ds[..|ds| - 1] == Digits(n / 10);
    }
  }

  /** A number has at most k digits exactly when it is below the k-th power of ten. */
  lemma {:induction false} DigitsLength(n: nat, k: nat)
    requires k > 0
    ensures |Digits(n)| <= k <==> n < Pow10(k)
  {
    if n < 10 {
      PowGrows(k);
    } else if k == 1 {
      assert Pow10(1) == 10 * Pow10(0) == 10;
    } else {
      DigitsLength(n / 10, k - 1);
      assert Pow10(k) == 10 * Pow10(k - 1);
      assert n < 10 * Pow10(k - 1) <==> n / 10 < Pow10(k - 1);
    }
  }

  lemma {:induction false} PowGrows(k: nat)
    requires k > 0
    ensures Pow10(k) >= 10
  {
    if k > 1 {
      PowGrows(k - 1);
    } else {
      assert Pow10(1) == 10 * Pow10(0);
    }
  }
}
