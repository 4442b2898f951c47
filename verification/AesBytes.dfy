/** The byte operations of AES: the S-box tables and the arithmetic of GF(2^8). */
module AesBytes {
  /** The S-box, sixteen bytes a row. */
  function SBoxRow(r: bv8): bv128 {
    if r == 0 then 0x637c777b_f26b6fc5_3001672b_fed7ab76
    else if r == 1 then 0xca82c97d_fa5947f0_add4a2af_9ca472c0
    else if r == 2 then 0xb7fd9326_363ff7cc_34a5e5f1_71d83115
    else if r == 3 then 0x04c723c3_1896059a_071280e2_eb27b275
    else if r == 4 then 0x09832c1a_1b6e5aa0_523bd6b3_29e32f84
    else if r == 5 then 0x53d100ed_20fcb15b_6acbbe39_4a4c58cf
    else if r == 6 then 0xd0efaafb_434d3385_45f9027f_503c9fa8
    else if r == 7 then 0x51a3408f_929d38f5_bcb6da21_10fff3d2
    else if r == 8 then 0xcd0c13ec_5f974417_c4a77e3d_645d1973
    else if r == 9 then 0x60814fdc_222a9088_46eeb814_de5e0bdb
    else if r == 10 then 0xe0323a0a_4906245c_c2d3ac62_9195e479
    else if r == 11 then 0xe7c8376d_8dd54ea9_6c56f4ea_657aae08
    else if r == 12 then 0xba78252e_1ca6b4c6_e8dd741f_4bbd8b8a
    else if r == 13 then 0x703eb566_4803f60e_613557b9_86c11d9e
    else if r == 14 then 0xe1f89811_69d98e94_9b1e87e9_ce5528df
    else 0x8ca1890d_bfe64268_41992d0f_b054bb16
  }

  /** The inverse S-box. */
  function InvSBoxRow(r: bv8): bv128 {
    if r == 0 then 0x52096ad5_3036a538_bf40a39e_81f3d7fb
    else if r == 1 then 0x7ce33982_9b2fff87_348e4344_c4dee9cb
    else if r == 2 then 0x547b9432_a6c2233d_ee4c950b_42fac34e
    else if r == 3 then 0x082ea166_28d924b2_765ba249_6d8bd125
    else if r == 4 then 0x72f8f664_86689816_d4a45ccc_5d65b692
    else if r == 5 then 0x6c704850_fdedb9da_5e154657_a78d9d84
    else if r == 6 then 0x90d8ab00_8cbcd30a_f7e45805_b8b34506
    else if r == 7 then 0xd02c1e8f_ca3f0f02_c1afbd03_01138a6b
    else if r == 8 then 0x3a911141_4f67dcea_97f2cfce_f0b4e673
    else if r == 9 then 0x96ac7422_e7ad3585_e2f937e8_1c75df6e
    else if r == 10 then 0x47f11a71_1d29c589_6fb7620e_aa18be1b
    else if r == 11 then 0xfc563e4b_c6d27920_9adbc0fe_78cd5af4
    else if r == 12 then 0x1fdda833_8807c731_b1121059_2780ec5f
    else if r == 13 then 0x60517fa9_19b54a0d_2de57a9f_93c99cef
    else if r == 14 then 0xa0e03b4d_ae2af5b0_c8ebbb3c_83539961
    else 0x172b047e_ba77d626_e1691463_55210c7d
  }

  /** Byte `i` of a row, counted from the left, by halving the row. */
  function RowByte(row: bv128, i: bv8): bv8
    requires i < 16
  {
    var half := if i & 8 == 0 then row >> 64 else row;
    var word := if i & 4 == 0 then half >> 32 else half;
    var pair := if i & 2 == 0 then word >> 16 else word;
    ((if i & 1 == 0 then pair >> 8 else pair) & 0xff) as bv8
  }

  function SBox(x: bv8): bv8 {
    RowByte(SBoxRow(x >> 4), x & 15)
  }

  function InvSBox(x: bv8): bv8 {
    RowByte(InvSBoxRow(x >> 4), x & 15)
  }

  /** The two tables are inverse to each other. */
  lemma SBoxInverse(x: bv8)
    ensures InvSBox(SBox(x)) == x
  {
    if x < 128 {
      SBoxInverseLow(x);
    } else {
      SBoxInverseHigh(x);
    }
  }

  lemma SBoxInverseLow(x: bv8)
    requires x < 128
    ensures InvSBox(SBox(x)) == x
  {
  }

  lemma SBoxInverseHigh(x: bv8)
    requires 128 <= x
    ensures InvSBox(SBox(x)) == x
  {
  }

  /** Addition in GF(2^8). */
  function Xor(x: bv8, y: bv8): bv8 {
    x ^ y
  }

  lemma XorAssociates(a: bv8, b: bv8, c: bv8)
    ensures Xor(Xor(a, b), c) == Xor(a, Xor(b, c))
  {
  }

  lemma XorSwap(a: bv8, b: bv8, c: bv8, d: bv8)
    ensures Xor(Xor(a, b), Xor(c, d)) == Xor(Xor(a, c), Xor(b, d))
  {
    assert Xor(b, c) == Xor(c, b);
    hide Xor;
    XorAssociates(a, b, Xor(c, d));
    XorAssociates(b, c, d);
    XorAssociates(c, b, d);
    XorAssociates(a, c, Xor(b, d));
  }

  lemma XorZero(x: bv8)
    ensures Xor(x, 0) == x && Xor(0, x) == x
  {
  }

  lemma XorTwice(x: bv8, y: bv8)
    ensures Xor(Xor(x, y), y) == x
  {
  }

  /** Multiplication by {02}. */
  function Xtime(x: bv8): bv8 {
    (x << 1) ^ (((x >> 7) & 1) * 0x1b)
  }

  /** `x` if bit `i` of `y` is set, else 0. */
  function Pick(y: bv8, i: bv8, x: bv8): bv8
    requires i < 8
  {
    ((y >> i) & 1) * x
  }

  /** Multiplication by a constant below 32, the bits of `y` picking the doublings of `x`. */
  function Multiply(x: bv8, y: bv8): bv8 {
    var x1 := Xtime(x);
    var x2 := Xtime(x1);
    var x3 := Xtime(x2);
    Xor(Xor(Xor(Xor(Pick(y, 0, x), Pick(y, 1, x1)), Pick(y, 2, x2)), Pick(y, 3, x3)), Pick(y, 4, Xtime(x3)))
  }

  /** One output of MixColumns; the others rotate the arguments. */
  function Mix(a: bv8, b: bv8, c: bv8, d: bv8): bv8 {
    Xor(a, Xor(Xtime(Xor(a, b)), Xor(Xor(a, b), Xor(c, d))))
  }

  /** One output of InvMixColumns. */
  function InvMix(a: bv8, b: bv8, c: bv8, d: bv8): bv8 {
    Xor(Xor(Multiply(a, 0x0e), Multiply(b, 0x0b)), Xor(Multiply(c, 0x0d), Multiply(d, 0x09)))
  }

  /** Doubling, picking, multiplying, mixing and unmixing all take sums to sums. */
  lemma XtimeLinear(x: bv8, y: bv8)
    ensures Xtime(Xor(x, y)) == Xor(Xtime(x), Xtime(y))
  {
  }

  lemma PickCases(k: bv8, i: bv8, x: bv8)
    requires i < 8
    ensures Pick(k, i, x) == if (k >> i) & 1 == 1 then x else 0
  {
    OneBit((k >> i) & 1, x);
  }

  lemma OneBit(bit: bv8, x: bv8)
    requires bit == bit & 1
    ensures bit * x == if bit == 1 then x else 0
  {
  }

  lemma PickLinear(k: bv8, i: bv8, x: bv8, y: bv8)
    requires i < 8
    ensures Pick(k, i, Xor(x, y)) == Xor(Pick(k, i, x), Pick(k, i, y))
  {
    hide Pick, Xor;
    PickCases(k, i, x);
    PickCases(k, i, y);
    PickCases(k, i, Xor(x, y));
    XorZero(0);
  }

  lemma MultiplyLinear(x: bv8, y: bv8, k: bv8)
    ensures Multiply(Xor(x, y), k) == Xor(Multiply(x, k), Multiply(y, k))
  {
    hide Xor, Xtime, Pick;
    var x1, y1 := Xtime(x), Xtime(y);
    var x2, y2 := Xtime(x1), Xtime(y1);
    var x3, y3 := Xtime(x2), Xtime(y2);
    var x4, y4 := Xtime(x3), Xtime(y3);
    XtimeLinear(x, y);
    XtimeLinear(x1, y1);
    XtimeLinear(x2, y2);
    XtimeLinear(x3, y3);
    PickLinear(k, 0, x, y);
    PickLinear(k, 1, x1, y1);
    PickLinear(k, 2, x2, y2);
    PickLinear(k, 3, x3, y3);
    PickLinear(k, 4, x4, y4);
    var p, q := Pick(k, 0, x), Pick(k, 0, y);
    XorSwap(p, q, Pick(k, 1, x1), Pick(k, 1, y1));
    p, q := Xor(p, Pick(k, 1, x1)), Xor(q, Pick(k, 1, y1));
    XorSwap(p, q, Pick(k, 2, x2), Pick(k, 2, y2));
    p, q := Xor(p, Pick(k, 2, x2)), Xor(q, Pick(k, 2, y2));
    XorSwap(p, q, Pick(k, 3, x3), Pick(k, 3, y3));
    p, q := Xor(p, Pick(k, 3, x3)), Xor(q, Pick(k, 3, y3));
    XorSwap(p, q, Pick(k, 4, x4), Pick(k, 4, y4));
  }

  lemma MixLinear(a: bv8, b: bv8, c: bv8, d: bv8, a': bv8, b': bv8, c': bv8, d': bv8)
    ensures Mix(Xor(a, a'), Xor(b, b'), Xor(c, c'), Xor(d, d')) == Xor(Mix(a, b, c, d), Mix(a', b', c', d'))
  {
    hide Xor, Xtime;
    var ab, ab', cd, cd' := Xor(a, b), Xor(a', b'), Xor(c, d), Xor(c', d');
    XorSwap(a, a', b, b');
    XorSwap(c, c', d, d');
    XorSwap(ab, ab', cd, cd');
    XtimeLinear(ab, ab');
    XorSwap(Xtime(ab), Xtime(ab'), Xor(ab, cd), Xor(ab', cd'));
    XorSwap(a, a', Xor(Xtime(ab), Xor(ab, cd)), Xor(Xtime(ab'), Xor(ab', cd')));
  }

  lemma InvMixLinear(a: bv8, b: bv8, c: bv8, d: bv8, a': bv8, b': bv8, c': bv8, d': bv8)
    ensures InvMix(Xor(a, a'), Xor(b, b'), Xor(c, c'), Xor(d, d')) == Xor(InvMix(a, b, c, d), InvMix(a', b', c', d'))
  {
    hide Xor, Multiply;
    MultiplyLinear(a, a', 0x0e);
    MultiplyLinear(b, b', 0x0b);
    MultiplyLinear(c, c', 0x0d);
    MultiplyLinear(d, d', 0x09);
    XorSwap(Multiply(a, 0x0e), Multiply(a', 0x0e), Multiply(b, 0x0b), Multiply(b', 0x0b));
    XorSwap(Multiply(c, 0x0d), Multiply(c', 0x0d), Multiply(d, 0x09), Multiply(d', 0x09));
    XorSwap(Xor(Multiply(a, 0x0e), Multiply(b, 0x0b)), Xor(Multiply(a', 0x0e), Multiply(b', 0x0b)),
            Xor(Multiply(c, 0x0d), Multiply(d, 0x09)), Xor(Multiply(c', 0x0d), Multiply(d', 0x09)));
  }

  /** MixColumns followed by InvMixColumns, in one byte of a column. */
  function MixBack(a: bv8, b: bv8, c: bv8, d: bv8): bv8 {
    InvMix(Mix(a, b, c, d), Mix(b, c, d, a), Mix(c, d, a, b), Mix(d, a, b, c))
  }

  lemma MixBackLinear(a: bv8, b: bv8, c: bv8, d: bv8, a': bv8, b': bv8, c': bv8, d': bv8)
    ensures MixBack(Xor(a, a'), Xor(b, b'), Xor(c, c'), Xor(d, d'))
         == Xor(MixBack(a, b, c, d), MixBack(a', b', c', d'))
  {
    hide Xor, Mix, InvMix;
    MixLinear(a, b, c, d, a', b', c', d');
    MixLinear(b, c, d, a, b', c', d', a');
    MixLinear(c, d, a, b, c', d', a', b');
    MixLinear(d, a, b, c, d', a', b', c');
    InvMixLinear(Mix(a, b, c, d), Mix(b, c, d, a), Mix(c, d, a, b), Mix(d, a, b, c),
                 Mix(a', b', c', d'), Mix(b', c', d', a'), Mix(c', d', a', b'), Mix(d', a', b', c'));
  }

  /** The two halves of a byte. */
  lemma Halves(x: bv8)
    ensures Xor(x & 0xf0, x & 0x0f) == x && Xor(0, 0) == 0
  {
  }

  lemma MixBackFirst(x: bv8)
    ensures MixBack(x, 0, 0, 0) == x
  {
    MixBackFirstHalf(x & 0xf0);
    MixBackFirstHalf(x & 0x0f);
    Halves(x);
    hide Xor, MixBack;
    MixBackLinear(x & 0xf0, 0, 0, 0, x & 0x0f, 0, 0, 0);
  }

  lemma MixBackFirstHalf(x: bv8)
    requires x & 0xf0 == 0 || x & 0x0f == 0
    ensures MixBack(x, 0, 0, 0) == x
  {
  }

  lemma MixBackSecond(x: bv8)
    ensures MixBack(0, x, 0, 0) == 0
  {
    MixBackSecondHalf(x & 0xf0);
    MixBackSecondHalf(x & 0x0f);
    Halves(x);
    hide Xor, MixBack;
    MixBackLinear(0, x & 0xf0, 0, 0, 0, x & 0x0f, 0, 0);
  }

  lemma MixBackSecondHalf(x: bv8)
    requires x & 0xf0 == 0 || x & 0x0f == 0
    ensures MixBack(0, x, 0, 0) == 0
  {
  }

  lemma MixBackThird(x: bv8)
    ensures MixBack(0, 0, x, 0) == 0
  {
    MixBackThirdHalf(x & 0xf0);
    MixBackThirdHalf(x & 0x0f);
    Halves(x);
    hide Xor, MixBack;
    MixBackLinear(0, 0, x & 0xf0, 0, 0, 0, x & 0x0f, 0);
  }

  lemma MixBackThirdHalf(x: bv8)
    requires x & 0xf0 == 0 || x & 0x0f == 0
    ensures MixBack(0, 0, x, 0) == 0
  {
  }

  lemma MixBackFourth(x: bv8)
    ensures MixBack(0, 0, 0, x) == 0
  {
    MixBackFourthHalf(x & 0xf0);
    MixBackFourthHalf(x & 0x0f);
    Halves(x);
    hide Xor, MixBack;
    MixBackLinear(0, 0, 0, x & 0xf0, 0, 0, 0, x & 0x0f);
  }

  lemma MixBackFourthHalf(x: bv8)
    requires x & 0xf0 == 0 || x & 0x0f == 0
    ensures MixBack(0, 0, 0, x) == 0
  {
  }

  /** InvMixColumns undoes MixColumns. */
  lemma MixInverse(a: bv8, b: bv8, c: bv8, d: bv8)
    ensures MixBack(a, b, c, d) == a
  {
    hide Xor, MixBack;
    XorZero(a);
    XorZero(b);
    XorZero(c);
    XorZero(d);
    XorZero(0);
    MixBackLinear(a, 0, 0, 0, 0, b, 0, 0);
    MixBackLinear(0, 0, c, 0, 0, 0, 0, d);
    MixBackLinear(a, b, 0, 0, 0, 0, c, d);
    MixBackFirst(a);
    MixBackSecond(b);
    MixBackThird(c);
    MixBackFourth(d);
  }
}
