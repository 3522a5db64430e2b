/** Sixteen attribute bits as the number that is sent for them, and back, bit by bit. */
module AttrNumbers {
  import opened Common
  import opened Styles

  function Halved(a: Attrs): Attrs { a >> 1 }

  function Doubled(a: Attrs, low: bool): Attrs { (a << 1) | (if low then 1 else 0) }

  predicate IsOdd(a: Attrs) { a & 1 == 1 }

  function Value(a: Attrs): (n: nat)
    ensures n == 0 <==> a == 0
    decreases a
  {
    if a == 0 then 0 else (if IsOdd(a) then 1 else 0) + 2 * Value(Halved(a))
  }

  function Bits(n: nat): Attrs {
    if n == 0 then 0 else Doubled(Bits(n / 2), n % 2 == 1)
  }

  // -------------------------------------------------------------------------
  // Sizes
  // -------------------------------------------------------------------------

  /** No bit but the lowest `k` is set. */
  predicate Below(a: Attrs, k: nat) {
    if k == 0 then a == 0 else Below(Halved(a), k - 1)
  }

  function Power(k: nat): (p: nat)
    ensures p > 0
  {
    if k == 0 then 1 else 2 * Power(k - 1)
  }

  lemma ValueHalved(a: Attrs)
    ensures Value(a) == (if IsOdd(a) then 1 else 0) + 2 * Value(Halved(a))
  {
  }

  lemma {:induction false} ValueBelow(a: Attrs, k: nat)
    ensures Below(a, k) <==> Value(a) < Power(k)
    decreases k
  {
    if k > 0 {
      ValueBelow(Halved(a), k - 1);
      ValueHalved(a);
      assert Power(k) == 2 * Power(k - 1);
    }
  }

  lemma {:induction false} BitsBelow(n: nat, k: nat)
    requires n < Power(k) && k <= 16
    ensures Below(Bits(n), k)
    decreases k
  {
    if k > 0 {
      BitsBelow(n / 2, k - 1);
      TopIsClear(Bits(n / 2), k - 1);
      HalvedDoubled(Bits(n / 2), n % 2 == 1);
    }
  }

  lemma HalvedDoubled(a: Attrs, odd: bool)
    requires a & 0x8000 == 0
    ensures Halved(Doubled(a, odd)) == a && (IsOdd(Doubled(a, odd)) <==> odd)
  {
    assert Halved(Doubled(a, true)) == a && IsOdd(Doubled(a, true));
    assert Halved(Doubled(a, false)) == a && !IsOdd(Doubled(a, false));
  }

  lemma DoubledHalved(a: Attrs)
    ensures Doubled(Halved(a), IsOdd(a)) == a
  {
  }

  lemma FourFewer(a: Attrs, k: nat)
    ensures Below(a, k + 4) <==> Below(a >> 4, k)
  {
    var b := Halved(Halved(a));
    assert Below(a, k + 4) <==> Below(Halved(a), k + 3);
    assert Below(Halved(a), k + 3) <==> Below(b, k + 2);
    assert Below(b, k + 2) <==> Below(Halved(b), k + 1);
    assert Below(Halved(b), k + 1) <==> Below(Halved(Halved(b)), k);
    assert Halved(Halved(b)) == a >> 4;
  }

  lemma TwelveFewer(a: Attrs, k: nat)
    ensures Below(a, k + 12) <==> Below(a >> 12, k)
  {
    hide Below;
    FourFewer(a, k + 8);
    FourFewer(a >> 4, k + 4);
    FourFewer(a >> 8, k);
    assert a >> 4 >> 4 == a >> 8 && a >> 8 >> 4 == a >> 12;
  }

  lemma AllBelow(a: Attrs)
    ensures Below(a, 16)
  {
    TwelveFewer(a, 4);
    FourFewer(a >> 12, 0);
    assert a >> 12 >> 4 == 0;
  }

  lemma {:induction false} BelowGrows(a: Attrs, k: nat)
    requires Below(a, k)
    ensures Below(a, k + 1)
    decreases k
  {
    if k > 0 {
      BelowGrows(Halved(a), k - 1);
    }
  }

  lemma {:induction false} TopIsClear(a: Attrs, k: nat)
    requires Below(a, k) && k <= 15
    ensures a & 0x8000 == 0
    decreases 15 - k
  {
    if k < 15 {
      BelowGrows(a, k);
      TopIsClear(a, k + 1);
    } else {
      TwelveFewer(a, 3);
      var b := a >> 12;
      assert Below(b, 3) <==> Below(Halved(b), 2);
      assert Below(Halved(b), 2) <==> Below(Halved(Halved(b)), 1);
      assert Below(Halved(Halved(b)), 1) <==> Halved(Halved(Halved(b))) == 0;
    }
  }

  lemma PowerOf16()
    ensures Power(16) == 0x1_0000
  {
    assert Power(4) == 16;
    assert Power(8) == 256;
    assert Power(12) == 4096;
  }

  // -------------------------------------------------------------------------
  // Numbers that fit
  // -------------------------------------------------------------------------

  lemma ValueFits(a: Attrs)
    ensures Value(a) < 0x1_0000
  {
    AllBelow(a);
    ValueBelow(a, 16);
    PowerOf16();
  }

  /** The number with these bits. */
  function NumberOf(a: Attrs): u16 {
    ValueFits(a);
    Value(a)
  }

  /** The bits of a number. */
  function AttrsOf(n: u16): Attrs {
    Bits(n)
  }

  lemma {:induction false} BitsOfValue(a: Attrs)
    ensures Bits(Value(a)) == a
    decreases a
  {
    if a != 0 {
      BitsOfValue(Halved(a));
      DoubledHalved(a);
    }
  }

  lemma {:induction false} ValueOfBits(n: nat, k: nat)
    requires n < Power(k) && k <= 16
    ensures Value(Bits(n)) == n
    decreases k
  {
    if k > 0 && n > 0 {
      ValueOfBits(n / 2, k - 1);
      BitsBelow(n / 2, k - 1);
      TopIsClear(Bits(n / 2), k - 1);
      HalvedDoubled(Bits(n / 2), n % 2 == 1);
    }
  }

  lemma NumbersInverse(a: Attrs, n: u16)
    ensures AttrsOf(NumberOf(a)) == a && NumberOf(AttrsOf(n)) == n
  {
    BitsOfValue(a);
    PowerOf16();
    ValueOfBits(n, 16);
  }

  lemma NineBelow(a: Attrs)
    ensures Below(a, 9) <==> Within(a, 0x1FF)
  {
    FourFewer(a, 5);
    FourFewer(a >> 4, 1);
    hide Below;
    assert a >> 4 >> 4 == a >> 8;
    OneBelow(a >> 8);
    NineClear(a);
  }

  lemma OneBelow(a: Attrs)
    ensures Below(a, 1) <==> Halved(a) == 0
  {
  }

  lemma NineClear(a: Attrs)
    ensures Halved(a >> 8) == 0 <==> Within(a, 0x1FF)
  {
  }

  /** The lowest nine bits make the numbers below 512. */
  lemma NineBits(n: u16)
    ensures Within(AttrsOf(n), 0x1FF) <==> n < 0x200
  {
    hide Below, Within, Bits, Value;
    NumbersInverse(0, n);
    ValueBelow(AttrsOf(n), 9);
    NineBelow(AttrsOf(n));
    assert Power(5) == 32;
    assert Power(9) == 512;
  }
}
