/** Numbers as decimal text: strconv.AppendUint and the digits strconv.ParseUint reads. */
module Decimals {

  predicate AllDigits(s: string) {
    forall i :: 0 <= i < |s| ==> '0' <= s[i] <= '9'
  }

  function DigitChar(n: int): char
    requires 0 <= n < 10
  {
    '0' + n as char
  }

  /** strconv.AppendUint(nil, n, 10) */
  function Decimal(n: nat): (s: string)
    ensures s != [] && AllDigits(s)
  {
    if n < 10 then [DigitChar(n)] else Decimal(n / 10) + [DigitChar(n % 10)]
  }

  function DecimalValue(s: string): nat
    requires AllDigits(s)
  {
    if s == [] then 0 else 10 * DecimalValue(s[..|s| - 1]) + (s[|s| - 1] - '0') as nat
  }

  function Zeros(z: nat): (s: string)
    ensures AllDigits(s) && |s| == z
  {
    seq(z, i => '0')
  }

  lemma ValueSnoc(s: string, n: nat)
    requires AllDigits(s) && n < 10
    ensures AllDigits(s + [DigitChar(n)]) && DecimalValue(s + [DigitChar(n)]) == 10 * DecimalValue(s) + n
  {
    assert (s + [DigitChar(n)])[..|s|] == s;
  }

  /** Reading back what was written, leading zeros aside. */
  lemma {:induction false} ValueOfDecimal(z: nat, n: nat)
    ensures AllDigits(Zeros(z) + Decimal(n)) && DecimalValue(Zeros(z) + Decimal(n)) == n
    decreases n
  {
    if n < 10 {
      ZerosAreZero(z);
      ValueSnoc(Zeros(z), n);
    } else {
      ValueOfDecimal(z, n / 10);
      ValueSnoc(Zeros(z) + Decimal(n / 10), n % 10);
      assert Zeros(z) + Decimal(n) == Zeros(z) + Decimal(n / 10) + [DigitChar(n % 10)];
    }
  }

  lemma {:induction false} ZerosAreZero(z: nat)
    ensures DecimalValue(Zeros(z)) == 0
  {
    if z > 0 {
      ZerosAreZero(z - 1);
      assert Zeros(z)[..z - 1] == Zeros(z - 1);
    }
  }

  /** One more digit. */
  lemma TextSnoc(z: nat, v: nat, d: nat) returns (y: nat)
    requires d < 10
    ensures Zeros(z) + Decimal(v) + [DigitChar(d)] == Zeros(y) + Decimal(10 * v + d)
  {
    if v == 0 {
      y := z + 1;
      assert Zeros(z) + Decimal(0) == Zeros(z + 1);
    } else {
      y := z;
      assert Decimal(10 * v + d) == Decimal(v) + [DigitChar(d)];
      assert Zeros(z) + Decimal(v) + [DigitChar(d)] == Zeros(z) + (Decimal(v) + [DigitChar(d)]);
    }
  }

  /** Every digit string is a number's text behind zeros. */
  lemma {:induction false} DecimalOfValue(s: string) returns (z: nat)
    requires AllDigits(s) && s != []
    ensures s == Zeros(z) + Decimal(DecimalValue(s))
  {
    var init, d := s[..|s| - 1], (s[|s| - 1] - '0') as nat;
    assert s == init + [DigitChar(d)];
    if init == [] {
      z := 0;
      assert DecimalValue(s) == 10 * DecimalValue(init) + d == d;
    } else {
      z := DecimalOfValue(init);
      z := TextSnoc(z, DecimalValue(init), d);
    }
  }

  lemma DecimalInjective(m: nat, n: nat)
    requires Decimal(m) == Decimal(n)
    ensures m == n
  {
    ValueOfDecimal(0, m);
    ValueOfDecimal(0, n);
  }
}
