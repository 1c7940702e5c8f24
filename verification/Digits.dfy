/** Decimal notation of natural numbers as digit sequences, most significant digit first. */
module Digits {
  newtype Digit = d: int | 0 <= d < 10

  function ToDigits(n: nat): (ds: seq<Digit>)
    ensures ds != [] && (ds[0] == 0 ==> n == 0)
  {
    if n < 10 then [n as Digit] else ToDigits(n / 10) + [(n % 10) as Digit]
  }

  function FromDigits(ds: seq<Digit>): nat
  {
    if ds == [] then 0 else FromDigits(ds[..|ds| - 1]) * 10 + ds[|ds| - 1] as nat
  }

  lemma {:induction false} DigitsRoundTrip(n: nat)
    ensures FromDigits(ToDigits(n)) == n
  {
    if n >= 10 {
      DigitsRoundTrip(n / 10);
      var ds := ToDigits(n);
      assert ds[..|ds| - 1] == ToDigits(n / 10);
    }
  }
}
