/** The tables and column mixes of AES against their definitions in the field of 256
    elements, sections 4.2, 5.1.1 and 5.1.3 of FIPS 197. */
module AesField {
  import opened AesBytes

  /** Multiplication by {02}, with a test in place of a product. */
  function Double(x: bv8): bv8 {
    if x & 0x80 != 0 then (x << 1) ^ 0x1b else x << 1
  }

  /** The doublings of `x`. */
  ghost predicate Doublings(x: bv8, x1: bv8, x2: bv8, x3: bv8, x4: bv8, x5: bv8, x6: bv8, x7: bv8) {
    && x1 == (if x & 0x80 != 0 then (x << 1) ^ 0x1b else x << 1)
    && x2 == (if x1 & 0x80 != 0 then (x1 << 1) ^ 0x1b else x1 << 1)
    && x3 == (if x2 & 0x80 != 0 then (x2 << 1) ^ 0x1b else x2 << 1)
    && x4 == (if x3 & 0x80 != 0 then (x3 << 1) ^ 0x1b else x3 << 1)
    && x5 == (if x4 & 0x80 != 0 then (x4 << 1) ^ 0x1b else x4 << 1)
    && x6 == (if x5 & 0x80 != 0 then (x5 << 1) ^ 0x1b else x5 << 1)
    && x7 == (if x6 & 0x80 != 0 then (x6 << 1) ^ 0x1b else x6 << 1)
  }

  /** Those that the bits of `y` pick, added up. */
  function Picked(y: bv8, x: bv8, x1: bv8, x2: bv8, x3: bv8, x4: bv8, x5: bv8, x6: bv8, x7: bv8): bv8 {
    Xor(Xor(Xor(Xor(Xor(Xor(Xor(If(y & 1, x), If(y & 2, x1)), If(y & 4, x2)), If(y & 8, x3)), If(y & 16, x4)),
                If(y & 32, x5)), If(y & 64, x6)), If(y & 128, x7))
  }

  function If(bit: bv8, x: bv8): bv8 {
    if bit != 0 then x else 0
  }

  /** Multiplication in GF(2^8). */
  function GfMul(x: bv8, y: bv8): bv8 {
    var x1 := Double(x);
    var x2 := Double(x1);
    var x3 := Double(x2);
    var x4 := Double(x3);
    var x5 := Double(x4);
    var x6 := Double(x5);
    Picked(y, x, x1, x2, x3, x4, x5, x6, Double(x6))
  }

  /** The product of `x` and `y` is 1. */
  ghost predicate IsUnit(x: bv8, y: bv8) {
    forall x1, x2, x3, x4, x5, x6, x7 :: Doublings(x, x1, x2, x3, x4, x5, x6, x7) ==>
      Picked(y, x, x1, x2, x3, x4, x5, x6, x7) == 1
  }

  lemma UnitProduct(x: bv8, y: bv8)
    requires IsUnit(x, y)
    ensures GfMul(x, y) == 1
  {
    hide Picked;
    var x1 := Double(x);
    var x2 := Double(x1);
    var x3 := Double(x2);
    var x4 := Double(x3);
    var x5 := Double(x4);
    var x6 := Double(x5);
    assert Doublings(x, x1, x2, x3, x4, x5, x6, Double(x6));
  }

  function RotLeft(x: bv8, n: bv8): bv8
    requires 0 < n < 8
  {
    (x << n) | (x >> (8 - n))
  }

  /** The affine map of the S-box, and its inverse. */
  function Affine(y: bv8): bv8 {
    y ^ RotLeft(y, 1) ^ RotLeft(y, 2) ^ RotLeft(y, 3) ^ RotLeft(y, 4) ^ 0x63
  }

  function InvAffine(z: bv8): bv8 {
    ((z << 1) | (z >> 7)) ^ ((z << 3) | (z >> 5)) ^ ((z << 6) | (z >> 2)) ^ 0x05
  }

  lemma AffineInverse(z: bv8)
    ensures Affine(InvAffine(z)) == z
  {
  }

  /** What the S-box should be at `x`: the affine image of the inverse, zero for zero. */
  ghost predicate IsSBox(x: bv8, z: bv8) {
    exists y :: z == Affine(y) && if x == 0 then y == 0 else GfMul(x, y) == 1
  }

  /** The table is the S-box of the standard. */
  lemma SBoxIsInverseThenAffine(x: bv8)
    ensures IsSBox(x, SBox(x))
  {
    var y := InvAffine(SBox(x));
    AffineInverse(SBox(x));
    if x != 0 {
      EntryIsInverse(x);
      UnitProduct(x, y);
    } else {
      ZeroEntry();
    }
    hide SBox, Affine, InvAffine, GfMul;
  }

  lemma ZeroEntry()
    ensures InvAffine(SBox(0)) == 0
  {
  }

  lemma EntryIsInverse(x: bv8)
    requires x != 0
    ensures IsUnit(x, InvAffine(SBox(x)))
  {
    hide IsUnit, SBox, InvAffine;
    if x >> 5 == 0 {
      Entries01(x);
    } else if x >> 5 == 1 {
      Entries23(x);
    } else if x >> 5 == 2 {
      Entries45(x);
    } else if x >> 5 == 3 {
      Entries67(x);
    } else if x >> 5 == 4 {
      Entries89(x);
    } else if x >> 4 == 10 {
      EntriesA(x);
    } else if x >> 4 == 11 {
      EntriesB(x);
    } else if x >> 4 == 12 {
      EntriesC(x);
    } else if x >> 4 == 13 {
      EntriesD(x);
    } else {
      EntriesEF(x);
    }
  }

  lemma Entries01(x: bv8)
    requires x >> 5 == 0 && x != 0
    ensures IsUnit(x, InvAffine(SBox(x)))
  {
  }

  lemma Entries23(x: bv8)
    requires x >> 5 == 1
    ensures IsUnit(x, InvAffine(SBox(x)))
  {
  }

  lemma Entries45(x: bv8)
    requires x >> 5 == 2
    ensures IsUnit(x, InvAffine(SBox(x)))
  {
  }

  lemma Entries67(x: bv8)
    requires x >> 5 == 3
    ensures IsUnit(x, InvAffine(SBox(x)))
  {
  }

  lemma Entries89(x: bv8)
    requires x >> 5 == 4
    ensures IsUnit(x, InvAffine(SBox(x)))
  {
  }

  lemma EntriesA(x: bv8)
    requires x >> 4 == 10
    ensures IsUnit(x, InvAffine(SBox(x)))
  {
  }

  lemma EntriesB(x: bv8)
    requires x >> 4 == 11
    ensures IsUnit(x, InvAffine(SBox(x)))
  {
  }

  lemma EntriesC(x: bv8)
    requires x >> 4 == 12
    ensures IsUnit(x, InvAffine(SBox(x)))
  {
  }

  lemma EntriesD(x: bv8)
    requires x >> 4 == 13
    ensures IsUnit(x, InvAffine(SBox(x)))
  {
  }

  lemma EntriesEF(x: bv8)
    requires x >> 5 == 7
    ensures IsUnit(x, InvAffine(SBox(x)))
  {
  }

  lemma DoubleIsXtime(x: bv8)
    ensures Double(x) == Xtime(x)
  {
  }

  lemma PickIsIf(y: bv8, x0: bv8, x1: bv8, x2: bv8, x3: bv8, x4: bv8)
    ensures Pick(y, 0, x0) == If(y & 1, x0) && Pick(y, 1, x1) == If(y & 2, x1) && Pick(y, 2, x2) == If(y & 4, x2)
    ensures Pick(y, 3, x3) == If(y & 8, x3) && Pick(y, 4, x4) == If(y & 16, x4)
  {
    PickBit((y >> 0) & 1, y & 1, x0);
    PickBit((y >> 1) & 1, y & 2, x1);
    PickBit((y >> 2) & 1, y & 4, x2);
    PickBit((y >> 3) & 1, y & 8, x3);
    PickBit((y >> 4) & 1, y & 16, x4);
  }

  lemma PickBit(bit: bv8, masked: bv8, x: bv8)
    requires bit == if masked != 0 then 1 else 0
    ensures bit * x == If(masked, x)
  {
  }

  lemma HighBitsClear(y: bv8, x5: bv8, x6: bv8, x7: bv8)
    requires y < 32
    ensures If(y & 32, x5) == 0 && If(y & 64, x6) == 0 && If(y & 128, x7) == 0
  {
  }

  /** The multiplication used by InvMixColumns is that of the field, for its constants. */
  lemma MultiplyIsGfMul(x: bv8, y: bv8)
    requires y < 32
    ensures Multiply(x, y) == GfMul(x, y)
  {
    hide Xor, Xtime, Pick, Double, If;
    var x1 := Double(x);
    var x2 := Double(x1);
    var x3 := Double(x2);
    var x4 := Double(x3);
    var x5 := Double(x4);
    var x6 := Double(x5);
    DoubleIsXtime(x);
    DoubleIsXtime(x1);
    DoubleIsXtime(x2);
    DoubleIsXtime(x3);
    PickIsIf(y, x, x1, x2, x3, x4);
    HighBitsClear(y, x5, x6, Double(x6));
    XorZero(Multiply(x, y));
  }

  lemma TwoAndThree(x: bv8)
    ensures GfMul(x, 2) == Xtime(x) && GfMul(x, 3) == Xor(x, Xtime(x))
  {
    DoubleIsXtime(x);
  }

  lemma XorCommutes(x: bv8, y: bv8)
    ensures Xor(x, y) == Xor(y, x)
  {
  }

  lemma XorCancels(x: bv8, y: bv8, z: bv8)
    ensures Xor(x, Xor(y, Xor(x, z))) == Xor(y, z)
  {
    hide Xor;
    XorAssociates(y, x, z);
    XorCommutes(y, x);
    XorAssociates(x, y, z);
    XorCommutes(x, Xor(x, Xor(y, z)));
    XorCommutes(x, Xor(y, z));
    XorTwice(Xor(y, z), x);
  }

  /** The short form of MixColumns is the product with the fixed column 02 03 01 01. */
  lemma MixIsProduct(a: bv8, b: bv8, c: bv8, d: bv8)
    ensures Mix(a, b, c, d) == Xor(Xor(GfMul(a, 2), GfMul(b, 3)), Xor(c, d))
  {
    TwoAndThree(a);
    TwoAndThree(b);
    hide Xor, Xtime, GfMul;
    var A, B, s := Xtime(a), Xtime(b), Xor(c, d);
    XtimeLinear(a, b);
    XorAssociates(a, b, s);
    XorCancels(a, Xor(A, B), Xor(b, s));
    XorAssociates(A, B, Xor(b, s));
    XorAssociates(B, b, s);
    XorCommutes(b, B);
    XorAssociates(A, Xor(b, B), s);
  }

  /** InvMixColumns is the product with the fixed column 0e 0b 0d 09. */
  lemma InvMixIsProduct(a: bv8, b: bv8, c: bv8, d: bv8)
    ensures InvMix(a, b, c, d)
         == Xor(Xor(GfMul(a, 0x0e), GfMul(b, 0x0b)), Xor(GfMul(c, 0x0d), GfMul(d, 0x09)))
  {
    hide Xor, GfMul, Multiply;
    MultiplyIsGfMul(a, 0x0e);
    MultiplyIsGfMul(b, 0x0b);
    MultiplyIsGfMul(c, 0x0d);
    MultiplyIsGfMul(d, 0x09);
  }
}
