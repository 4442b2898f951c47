/** The word functions of SHA-256, bit by bit: section 4.1.2 of FIPS 180-4. */
module Sha256Bits {
  import opened Bytes
  import opened Sha256

  function Low(x: bv32): bool {
    x & 1 == 1
  }

  function Half(x: bv32): bv32 {
    x >> 1
  }

  /** Bit `i` of a word, the least significant being bit 0. */
  function Bit(x: bv32, i: nat): bool {
    if i == 0 then Low(x) else Bit(Half(x), i - 1)
  }

  /** An odd number of the three. */
  predicate Odd(p: bool, q: bool, r: bool) {
    (p != q) != r
  }

  /** At least two of the three. */
  predicate Most(p: bool, q: bool, r: bool) {
    (p && q) || (p && r) || (q && r)
  }

  function Or(x: bv32, y: bv32): bv32 {
    x | y
  }

  lemma HalfXor3(x: bv32, y: bv32, z: bv32)
    ensures Half(Xor3(x, y, z)) == Xor3(Half(x), Half(y), Half(z))
    ensures Low(Xor3(x, y, z)) == Odd(Low(x), Low(y), Low(z))
  {
  }

  lemma HalfOr(x: bv32, y: bv32)
    ensures Half(Or(x, y)) == Or(Half(x), Half(y)) && Low(Or(x, y)) == (Low(x) || Low(y))
  {
  }

  lemma HalfCh(x: bv32, y: bv32, z: bv32)
    ensures Half(Ch(x, y, z)) == Ch(Half(x), Half(y), Half(z))
    ensures Low(Ch(x, y, z)) == if Low(x) then Low(y) else Low(z)
  {
  }

  lemma HalfMaj(x: bv32, y: bv32, z: bv32)
    ensures Half(Maj(x, y, z)) == Maj(Half(x), Half(y), Half(z))
    ensures Low(Maj(x, y, z)) == Most(Low(x), Low(y), Low(z))
  {
  }

  lemma {:induction false} Xor3Bit(x: bv32, y: bv32, z: bv32, i: nat)
    ensures Bit(Xor3(x, y, z), i) == Odd(Bit(x, i), Bit(y, i), Bit(z, i))
    decreases i
  {
    hide Low, Half, Xor3;
    HalfXor3(x, y, z);
    if i > 0 {
      Xor3Bit(Half(x), Half(y), Half(z), i - 1);
    }
  }

  lemma {:induction false} OrBit(x: bv32, y: bv32, i: nat)
    ensures Bit(Or(x, y), i) == (Bit(x, i) || Bit(y, i))
    decreases i
  {
    hide Low, Half, Or;
    HalfOr(x, y);
    if i > 0 {
      OrBit(Half(x), Half(y), i - 1);
    }
  }

  /** The bits of y where x has a bit, and of z elsewhere. */
  lemma {:induction false} ChSelects(x: bv32, y: bv32, z: bv32, i: nat)
    ensures Bit(Ch(x, y, z), i) == if Bit(x, i) then Bit(y, i) else Bit(z, i)
    decreases i
  {
    hide Low, Half, Ch;
    HalfCh(x, y, z);
    if i > 0 {
      ChSelects(Half(x), Half(y), Half(z), i - 1);
    }
  }

  lemma {:induction false} MajIsMajority(x: bv32, y: bv32, z: bv32, i: nat)
    ensures Bit(Maj(x, y, z), i) == Most(Bit(x, i), Bit(y, i), Bit(z, i))
    decreases i
  {
    hide Low, Half, Maj;
    HalfMaj(x, y, z);
    if i > 0 {
      MajIsMajority(Half(x), Half(y), Half(z), i - 1);
    }
  }

  /** Nothing is left of `x` after `k` halvings. */
  predicate Fits(x: bv32, k: nat) {
    if k == 0 then x == 0 else Fits(Half(x), k - 1)
  }

  lemma ZeroHalf()
    ensures !Low(0) && Half(0) == 0
  {
  }

  lemma {:induction false} NoBitAbove(x: bv32, k: nat, i: nat)
    requires Fits(x, k) && k <= i
    ensures !Bit(x, i)
    decreases i
  {
    ZeroHalf();
    hide Low, Half;
    if i > 0 {
      NoBitAbove(Half(x), if k == 0 then 0 else k - 1, i - 1);
    }
  }

  function Sixteenth(x: bv32): bv32 {
    x >> 4
  }

  lemma HalfOften(x: bv32)
    ensures Half(Half(Half(Half(x)))) == Sixteenth(x)
  {
  }

  lemma Fits4(x: bv32, k: nat)
    requires Fits(Sixteenth(x), k)
    ensures Fits(x, k + 4)
  {
    HalfOften(x);
    hide Half, Sixteenth;
    assert Fits(Half(Half(Half(x))), k + 1) && Fits(Half(Half(x)), k + 2) && Fits(Half(x), k + 3);
  }

  lemma Fits16(x: bv32, k: nat)
    requires Fits(Sixteenth(Sixteenth(Sixteenth(Sixteenth(x)))), k)
    ensures Fits(x, k + 16)
  {
    hide Fits, Sixteenth;
    Fits4(Sixteenth(Sixteenth(Sixteenth(x))), k);
    Fits4(Sixteenth(Sixteenth(x)), k + 4);
    Fits4(Sixteenth(x), k + 8);
    Fits4(x, k + 12);
  }

  lemma AllShifted(x: bv32)
    ensures Sixteenth(Sixteenth(Sixteenth(Sixteenth(Sixteenth(Sixteenth(Sixteenth(Sixteenth(x)))))))) == 0
  {
  }

  lemma FitsWord(x: bv32)
    ensures Fits(x, 32)
  {
    AllShifted(x);
    hide Sixteenth;
    Fits16(Sixteenth(Sixteenth(Sixteenth(Sixteenth(x)))), 0);
    Fits16(x, 16);
  }

  lemma NoBitInWord(x: bv32, i: nat)
    requires 32 <= i
    ensures !Bit(x, i)
  {
    hide Fits, Bit;
    FitsWord(x);
    NoBitAbove(x, 32, i);
  }

  /** `x` is 2^k. */
  predicate IsUnit(x: bv32, k: nat) {
    if k == 0 then x == 1 else !Low(x) && IsUnit(Half(x), k - 1)
  }

  lemma {:induction false} UnitBit(x: bv32, k: nat, i: nat)
    requires IsUnit(x, k)
    ensures Bit(x, i) == (i == k)
    decreases i
  {
    OneHalf();
    hide Low, Half;
    if k > 0 && i > 0 {
      UnitBit(Half(x), k - 1, i - 1);
    } else if i > 0 {
      NoBitAbove(0, 0, i - 1);
    }
  }

  lemma OneHalf()
    ensures Low(1) && Half(1) == 0
  {
  }

  lemma Unit4(x: bv32, y: bv32, k: nat)
    requires IsUnit(x, k) && x == Sixteenth(y) && y & 15 == 0
    ensures IsUnit(y, k + 4)
  {
    HalfOften(y);
    NoneLow(y);
    hide Half, Low, Sixteenth;
    assert IsUnit(Half(Half(Half(y))), k + 1) && IsUnit(Half(Half(y)), k + 2) && IsUnit(Half(y), k + 3);
  }

  lemma NoneLow(y: bv32)
    requires y & 15 == 0
    ensures !Low(y) && !Low(Half(y)) && !Low(Half(Half(y))) && !Low(Half(Half(Half(y))))
  {
  }

  lemma TopUnit()
    ensures IsUnit(0x8000_0000, 31)
  {
    assert IsUnit(8, 3);
    Unit4(0x8, 0x80, 3);
    Unit4(0x80, 0x800, 7);
    Unit4(0x800, 0x8000, 11);
    Unit4(0x8000, 0x8_0000, 15);
    Unit4(0x8_0000, 0x80_0000, 19);
    Unit4(0x80_0000, 0x800_0000, 23);
    Unit4(0x800_0000, 0x8000_0000, 27);
  }

  function Top(x: bv32): bv32 {
    x << 31
  }

  lemma TurnIs(x: bv32)
    ensures RotRight(x, 1) == Or(Half(x), Top(x))
  {
  }

  lemma TopOnly(x: bv32)
    ensures Top(x) == if Low(x) then 0x8000_0000 else 0
  {
  }

  lemma OrZero(x: bv32)
    ensures Or(x, 0) == x
  {
  }

  lemma TurnIsHalf(x: bv32)
    ensures RotRight(x, 1) == if Low(x) then Or(Half(x), 0x8000_0000) else Half(x)
  {
    TurnIs(x);
    TopOnly(x);
    OrZero(Half(x));
    hide RotRight, Top, Or, Half, Low;
  }

  /** Where bit `i` comes from in a rotation by `n`. */
  function From(i: nat, n: nat): (j: nat)
    ensures j < 32
  {
    (i + n) % 32
  }

  /** Rotating by `n` moves bit (i + n) mod 32 to bit i. */
  ghost predicate Rotates(x: bv32, y: bv32, n: nat) {
    forall i: nat {:trigger Bit(y, i)} :: i < 32 ==> Bit(y, i) == Bit(x, From(i, n))
  }

  lemma Rotate1(x: bv32)
    ensures Rotates(x, RotRight(x, 1), 1)
  {
    TurnIsHalf(x);
    FitsWord(x);
    TopUnit();
    hide Low, Half, Fits, IsUnit, RotRight;
    forall i: nat | i < 32
      ensures Bit(RotRight(x, 1), i) == Bit(x, From(i, 1))
    {
      UnitBit(0x8000_0000, 31, i);
      OrBit(Half(x), 0x8000_0000, i);
      NoBitAbove(x, 32, 32);
      assert Bit(x, i + 1) == Bit(Half(x), i);
      assert Bit(x, 0) == Low(x);
    }
  }

  lemma FromTwice(i: nat, m: nat, n: nat)
    ensures From(From(i, n), m) == From(i, m + n)
  {
  }

  lemma RotateTwice(x: bv32, y: bv32, z: bv32, m: nat, n: nat)
    requires Rotates(x, y, m) && Rotates(y, z, n)
    ensures Rotates(x, z, m + n)
  {
    forall i: nat | i < 32
      ensures Bit(z, i) == Bit(x, From(i, m + n))
    {
      FromTwice(i, m, n);
    }
  }

  lemma Rotate2(x: bv32)
    ensures Rotates(x, RotRight(x, 2), 2)
  {
    assert RotRight(x, 2) == RotRight(RotRight(x, 1), 1);
    hide RotRight, Rotates;
    Rotate1(x);
    Rotate1(RotRight(x, 1));
    RotateTwice(x, RotRight(x, 1), RotRight(x, 2), 1, 1);
  }

  lemma Rotate4(x: bv32)
    ensures Rotates(x, RotRight(x, 4), 4)
  {
    assert RotRight(x, 4) == RotRight(RotRight(x, 2), 2);
    hide RotRight, Rotates;
    Rotate2(x);
    Rotate2(RotRight(x, 2));
    RotateTwice(x, RotRight(x, 2), RotRight(x, 4), 2, 2);
  }

  lemma Rotate6(x: bv32)
    ensures Rotates(x, RotRight(x, 6), 6)
  {
    assert RotRight(x, 6) == RotRight(RotRight(x, 4), 2);
    hide RotRight, Rotates;
    Rotate4(x);
    Rotate2(RotRight(x, 4));
    RotateTwice(x, RotRight(x, 4), RotRight(x, 6), 4, 2);
  }

  lemma Rotate7(x: bv32)
    ensures Rotates(x, RotRight(x, 7), 7)
  {
    assert RotRight(x, 7) == RotRight(RotRight(x, 6), 1);
    hide RotRight, Rotates;
    Rotate6(x);
    Rotate1(RotRight(x, 6));
    RotateTwice(x, RotRight(x, 6), RotRight(x, 7), 6, 1);
  }

  lemma Rotate11(x: bv32)
    ensures Rotates(x, RotRight(x, 11), 11)
  {
    assert RotRight(x, 11) == RotRight(RotRight(x, 7), 4);
    hide RotRight, Rotates;
    Rotate7(x);
    Rotate4(RotRight(x, 7));
    RotateTwice(x, RotRight(x, 7), RotRight(x, 11), 7, 4);
  }

  lemma Rotate13(x: bv32)
    ensures Rotates(x, RotRight(x, 13), 13)
  {
    assert RotRight(x, 13) == RotRight(RotRight(x, 11), 2);
    hide RotRight, Rotates;
    Rotate11(x);
    Rotate2(RotRight(x, 11));
    RotateTwice(x, RotRight(x, 11), RotRight(x, 13), 11, 2);
  }

  lemma Rotate17(x: bv32)
    ensures Rotates(x, RotRight(x, 17), 17)
  {
    assert RotRight(x, 17) == RotRight(RotRight(x, 13), 4);
    hide RotRight, Rotates;
    Rotate13(x);
    Rotate4(RotRight(x, 13));
    RotateTwice(x, RotRight(x, 13), RotRight(x, 17), 13, 4);
  }

  lemma Rotate18(x: bv32)
    ensures Rotates(x, RotRight(x, 18), 18)
  {
    assert RotRight(x, 18) == RotRight(RotRight(x, 17), 1);
    hide RotRight, Rotates;
    Rotate17(x);
    Rotate1(RotRight(x, 17));
    RotateTwice(x, RotRight(x, 17), RotRight(x, 18), 17, 1);
  }

  lemma Rotate19(x: bv32)
    ensures Rotates(x, RotRight(x, 19), 19)
  {
    assert RotRight(x, 19) == RotRight(RotRight(x, 18), 1);
    hide RotRight, Rotates;
    Rotate18(x);
    Rotate1(RotRight(x, 18));
    RotateTwice(x, RotRight(x, 18), RotRight(x, 19), 18, 1);
  }

  lemma Rotate22(x: bv32)
    ensures Rotates(x, RotRight(x, 22), 22)
  {
    assert RotRight(x, 22) == RotRight(RotRight(x, 18), 4);
    hide RotRight, Rotates;
    Rotate18(x);
    Rotate4(RotRight(x, 18));
    RotateTwice(x, RotRight(x, 18), RotRight(x, 22), 18, 4);
  }

  lemma Rotate25(x: bv32)
    ensures Rotates(x, RotRight(x, 25), 25)
  {
    assert RotRight(x, 25) == RotRight(RotRight(x, 19), 6);
    hide RotRight, Rotates;
    Rotate19(x);
    Rotate6(RotRight(x, 19));
    RotateTwice(x, RotRight(x, 19), RotRight(x, 25), 19, 6);
  }

  lemma HalfThrice(x: bv32)
    ensures Half(Half(Half(x))) == ShiftRight(x, 3)
  {
  }

  lemma Shift3(x: bv32, i: nat)
    ensures Bit(ShiftRight(x, 3), i) == Bit(x, i + 3)
  {
    HalfThrice(x);
    hide Half, Low, ShiftRight;
    assert Bit(Half(Half(x)), i + 1) == Bit(ShiftRight(x, 3), i) && Bit(Half(x), i + 2) == Bit(Half(Half(x)), i + 1);
  }

  lemma ShiftOften(x: bv32)
    ensures Half(ShiftRight(ShiftRight(ShiftRight(x, 3), 3), 3)) == ShiftRight(x, 10)
  {
  }

  lemma Shift10(x: bv32, i: nat)
    ensures Bit(ShiftRight(x, 10), i) == Bit(x, i + 10)
  {
    ShiftOften(x);
    hide Half, Low, ShiftRight;
    var y := ShiftRight(x, 3);
    var z := ShiftRight(y, 3);
    Shift3(x, i + 7);
    Shift3(y, i + 4);
    Shift3(z, i + 1);
    assert Bit(ShiftRight(z, 3), i + 1) == Bit(ShiftRight(x, 10), i);
  }

  lemma Shifted3(x: bv32, i: nat)
    ensures Bit(ShiftRight(x, 3), i) == (i + 3 < 32 && Bit(x, i + 3))
  {
    hide Bit, ShiftRight;
    Shift3(x, i);
    if 32 <= i + 3 {
      NoBitInWord(x, i + 3);
    }
  }

  lemma Shifted10(x: bv32, i: nat)
    ensures Bit(ShiftRight(x, 10), i) == (i + 10 < 32 && Bit(x, i + 10))
  {
    hide Bit, ShiftRight;
    Shift10(x, i);
    if 32 <= i + 10 {
      NoBitInWord(x, i + 10);
    }
  }

  lemma Ep0Bits(x: bv32, i: nat)
    requires i < 32
    ensures Bit(Ep0(x), i) == Odd(Bit(x, From(i, 2)), Bit(x, From(i, 13)), Bit(x, From(i, 22)))
  {
    hide RotRight, Xor3;
    Rotate2(x);
    Rotate13(x);
    Rotate22(x);
    Xor3Bit(RotRight(x, 2), RotRight(x, 13), RotRight(x, 22), i);
  }

  lemma Ep1Bits(x: bv32, i: nat)
    requires i < 32
    ensures Bit(Ep1(x), i) == Odd(Bit(x, From(i, 6)), Bit(x, From(i, 11)), Bit(x, From(i, 25)))
  {
    hide RotRight, Xor3;
    Rotate6(x);
    Rotate11(x);
    Rotate25(x);
    Xor3Bit(RotRight(x, 6), RotRight(x, 11), RotRight(x, 25), i);
  }

  lemma Sig0Bits(x: bv32, i: nat)
    requires i < 32
    ensures Bit(Sig0(x), i) == Odd(Bit(x, From(i, 7)), Bit(x, From(i, 18)), i + 3 < 32 && Bit(x, i + 3))
  {
    hide RotRight, Xor3, ShiftRight, Low, Half;
    Rotate7(x);
    Rotate18(x);
    Xor3Bit(RotRight(x, 7), RotRight(x, 18), ShiftRight(x, 3), i);
    Shifted3(x, i);
  }

  lemma Sig1Bits(x: bv32, i: nat)
    requires i < 32
    ensures Bit(Sig1(x), i) == Odd(Bit(x, From(i, 17)), Bit(x, From(i, 19)), i + 10 < 32 && Bit(x, i + 10))
  {
    hide RotRight, Xor3, ShiftRight, Low, Half;
    Rotate17(x);
    Rotate19(x);
    Xor3Bit(RotRight(x, 17), RotRight(x, 19), ShiftRight(x, 10), i);
    Shifted10(x, i);
  }
}
