/** Unsigned decimal notation, as text and as ASCII bytes. */
module Decimal {
  import opened Common

  predicate IsDigit(b: byte) {
    0x30 <= b <= 0x39
  }

  /** The decimal digits of `n`, without leading zeros. */
  function Digits(n: nat): (ds: seq<byte>)
    ensures ds != []
    ensures forall i :: 0 <= i < |ds| ==> IsDigit(ds[i])
  {
    if n < 10 then [0x30 + n] else Digits(n / 10) + [0x30 + n % 10]
  }

  predicate AllDigits(ds: seq<byte>) {
    forall i :: 0 <= i < |ds| ==> IsDigit(ds[i])
  }

  /** The number a string of digits spells; 0 for the empty string. */
  function Value(ds: seq<byte>): nat
    requires AllDigits(ds)
  {
    if ds == [] then 0
    else Value(ds[..|ds| - 1]) * 10 + (ds[|ds| - 1] as int - 0x30)
  }

  lemma {:induction false} ValueOfDigits(n: nat)
    ensures Value(Digits(n)) == n
  {
    if n < 10 {
      assert [0x30 + n as byte][..0] == [];
    } else {
      ValueOfDigits(n / 10);
      var ds := Digits(n);
      assert ds[..|ds| - 1] == Digits(n / 10);
    }
  }
}
