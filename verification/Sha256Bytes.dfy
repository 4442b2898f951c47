/** Words and bytes: section 3.1 of FIPS 180-4 puts the highest byte of a word first. */
module Sha256Bytes {
  import opened Bytes
  import opened Sha256
  import opened Sha256Bits

  /** Bit `i` of a number. */
  function NatBit(v: nat, i: nat): bool {
    if i == 0 then v % 2 == 1 else NatBit(v / 2, i - 1)
  }

  /** The eight bits of `x` from bit 8 q on are those of `b`. */
  ghost predicate HasByte(x: bv32, q: nat, b: byte) {
    forall k: nat :: k < 8 ==> Bit(x, 8 * q + k) == NatBit(b, k)
  }

  /** The four bytes of `x`, the highest first. */
  ghost predicate IsWord(x: bv32, s: seq<byte>) {
    |s| == 4 && HasByte(x, 3, s[0]) && HasByte(x, 2, s[1]) && HasByte(x, 1, s[2]) && HasByte(x, 0, s[3])
  }

  lemma WideHalf(b: byte)
    ensures Half(Widen(b)) == Widen(b / 2) && Low(Widen(b)) == (b % 2 == 1)
  {
    WideFits(b);
    HalfOfNumber(Widen(b));
    WideLow(b);
  }

  lemma WideFits(b: byte)
    ensures Widen(b) < 256
  {
  }

  lemma WideLow(b: byte)
    ensures Low(Widen(b)) == (b % 2 == 1)
  {
  }

  lemma HalfOfNumber(x: bv32)
    requires x < 256
    ensures Half(x) as nat == x as nat / 2
  {
  }

  lemma {:induction false} WideBit(b: byte, i: nat)
    ensures Bit(Widen(b), i) == NatBit(b, i)
    decreases i
  {
    WideHalf(b);
    hide Widen, Half, Low;
    if i > 0 {
      WideBit(b / 2, i - 1);
    }
  }

  /** The lowest `k` bits are the same. */
  predicate Agree(x: bv32, y: bv32, k: nat) {
    k == 0 || (Low(x) == Low(y) && Agree(Half(x), Half(y), k - 1))
  }

  lemma {:induction false} AgreeBit(x: bv32, y: bv32, k: nat, i: nat)
    requires Agree(x, y, k) && i < k
    ensures Bit(x, i) == Bit(y, i)
    decreases k
  {
    hide Low, Half;
    if i > 0 {
      AgreeBit(Half(x), Half(y), k - 1, i - 1);
    }
  }

  lemma {:induction false} AgreeMore(x: bv32, y: bv32, m: bv32, k: nat)
    requires x & m == y & m && IsMask(m, k)
    ensures Agree(x, y, k)
    decreases k
  {
    if k > 0 {
      HalfMask(x, y, m);
      hide Low, Half;
      AgreeMore(Half(x), Half(y), Half(m), k - 1);
    }
  }

  /** The lowest `k` bits of `m` are set. */
  predicate IsMask(m: bv32, k: nat) {
    k == 0 || (Low(m) && IsMask(Half(m), k - 1))
  }

  lemma HalfMask(x: bv32, y: bv32, m: bv32)
    requires x & m == y & m && Low(m)
    ensures Low(x) == Low(y) && Half(x) & Half(m) == Half(y) & Half(m)
  {
  }

  lemma ByteMask()
    ensures IsMask(0xff, 8)
  {
    assert Half(0xff) == 0x7f && Half(0x7f) == 0x3f && Half(0x3f) == 0x1f && Half(0x1f) == 0xf;
  }

  lemma LowByteBit(x: bv32, y: bv32, i: nat)
    requires LowByte(x) == LowByte(y) && i < 8
    ensures Bit(x, i) == Bit(y, i)
  {
    hide Bit, Agree, IsMask;
    ByteMask();
    AgreeMore(x, y, 0xff, 8);
    AgreeBit(x, y, 8, i);
  }

  function Shr8(x: bv32): bv32 {
    x >> 8
  }

  /** `x` without its lowest `q` bytes. */
  function DropBytes(x: bv32, q: nat): bv32 {
    if q == 0 then x else DropBytes(Shr8(x), q - 1)
  }

  lemma Shr8Bit(x: bv32, i: nat)
    ensures Bit(Shr8(x), i) == Bit(x, i + 8)
  {
    EightHalves(x);
    hide Sixteenth, Shr8;
    SixteenthBit(x, i + 4);
    SixteenthBit(Sixteenth(x), i);
  }

  lemma EightHalves(x: bv32)
    ensures Shr8(x) == Sixteenth(Sixteenth(x))
  {
  }

  lemma SixteenthBit(x: bv32, i: nat)
    ensures Bit(Sixteenth(x), i) == Bit(x, i + 4)
  {
    HalfOften(x);
    hide Half, Low, Sixteenth;
    assert Bit(Half(Half(Half(x))), i + 1) == Bit(Sixteenth(x), i) && Bit(Half(Half(x)), i + 2) == Bit(Half(Half(Half(x))), i + 1);
    assert Bit(Half(x), i + 3) == Bit(Half(Half(x)), i + 2);
  }

  lemma {:induction false} DropBit(x: bv32, q: nat, k: nat)
    ensures Bit(DropBytes(x, q), k) == Bit(x, 8 * q + k)
    decreases q
  {
    hide Bit, Shr8;
    if q > 0 {
      DropBit(Shr8(x), q - 1, k);
      Shr8Bit(x, 8 * (q - 1) + k);
    }
  }

  lemma ByteFrom(x: bv32, q: nat, b: byte)
    requires LowByte(DropBytes(x, q)) == LowByte(Widen(b))
    ensures HasByte(x, q, b)
  {
    hide Bit, DropBytes, LowByte, Widen;
    forall k: nat | k < 8
      ensures Bit(x, 8 * q + k) == NatBit(b, k)
    {
      DropBit(x, q, k);
      LowByteBit(DropBytes(x, q), Widen(b), k);
      WideBit(b, k);
    }
  }

  lemma BytesFrom(w: bv32, a: byte, b: byte, c: byte, d: byte)
    requires LowByte(w) == LowByte(Widen(d)) && LowByte(Shr8(w)) == LowByte(Widen(c))
    requires LowByte(Shr8(Shr8(w))) == LowByte(Widen(b)) && LowByte(Shr8(Shr8(Shr8(w)))) == LowByte(Widen(a))
    ensures IsWord(w, [a, b, c, d])
  {
    hide Shr8, LowByte, Widen, HasByte;
    assert DropBytes(w, 1) == DropBytes(Shr8(w), 0);
    assert DropBytes(w, 2) == DropBytes(Shr8(w), 1) == DropBytes(Shr8(Shr8(w)), 0);
    assert DropBytes(w, 3) == DropBytes(Shr8(w), 2) == DropBytes(Shr8(Shr8(w)), 1);
    ByteFrom(w, 3, a);
    ByteFrom(w, 2, b);
    ByteFrom(w, 1, c);
    ByteFrom(w, 0, d);
  }

  lemma Joined(a: bv32, b: bv32, c: bv32, d: bv32)
    requires a < 256 && b < 256 && c < 256 && d < 256
    ensures var w := Join(a, b, c, d);
      && LowByte(w) == LowByte(d) && LowByte(Shr8(w)) == LowByte(c)
      && LowByte(Shr8(Shr8(w))) == LowByte(b) && LowByte(Shr8(Shr8(Shr8(w)))) == LowByte(a)
  {
  }

  /** A word is read from a block highest byte first. */
  lemma WordAtIsWord(block: Chunk, i: nat)
    requires i < 16
    ensures IsWord(WordAt(block, i), block[4 * i..4 * i + 4])
  {
    var a, b, c, d := block[4 * i], block[4 * i + 1], block[4 * i + 2], block[4 * i + 3];
    WideFits(a);
    WideFits(b);
    WideFits(c);
    WideFits(d);
    hide Join, LowByte, Shr8, Widen, IsWord;
    Joined(Widen(a), Widen(b), Widen(c), Widen(d));
    BytesFrom(WordAt(block, i), a, b, c, d);
    assert block[4 * i..4 * i + 4] == [a, b, c, d];
  }

  lemma WideNarrow(x: bv32)
    requires x < 256
    ensures Widen(Narrow(x)) == x
  {
  }

  lemma Parted(x: bv32)
    ensures Shr8(Shr8(Shr8(x))) == x >> 24 && Shr8(Shr8(x)) == x >> 16 && Shr8(x) == x >> 8
  {
  }

  lemma LowTwice(x: bv32)
    ensures LowByte(LowByte(x)) == LowByte(x)
  {
  }

  lemma ByteBack(x: bv32)
    ensures LowByte(Widen(Narrow(LowByte(x)))) == LowByte(x)
  {
    hide LowByte, Widen, Narrow;
    LowTwice(x);
    WideNarrow(LowByte(x));
  }

  /** A word is written highest byte first. */
  lemma WordBytesIsWord(x: bv32)
    ensures IsWord(x, WordBytes(x))
  {
    hide LowByte, Shr8, Widen, Narrow, IsWord;
    var s := WordBytes(x);
    Parted(x);
    ByteBack(x >> 24);
    ByteBack(x >> 16);
    ByteBack(x >> 8);
    ByteBack(x);
    BytesFrom(x, s[0], s[1], s[2], s[3]);
  }

  function Low8(x: bv8): bool {
    x & 1 == 1
  }

  function Half8(x: bv8): bv8 {
    x >> 1
  }

  function Bits8(b: byte): bv8 {
    b as bv8
  }

  function Xor8(x: bv8, y: bv8): bv8 {
    x ^ y
  }

  /** Bit `i` of eight. */
  function Bit8(x: bv8, i: nat): bool {
    if i == 0 then Low8(x) else Bit8(Half8(x), i - 1)
  }

  lemma HalfXor8(x: bv8, y: bv8)
    ensures Half8(Xor8(x, y)) == Xor8(Half8(x), Half8(y)) && Low8(Xor8(x, y)) == (Low8(x) != Low8(y))
  {
  }

  lemma {:induction false} Xor8Bit(x: bv8, y: bv8, i: nat)
    ensures Bit8(Xor8(x, y), i) == (Bit8(x, i) != Bit8(y, i))
    decreases i
  {
    hide Low8, Half8, Xor8;
    HalfXor8(x, y);
    if i > 0 {
      Xor8Bit(Half8(x), Half8(y), i - 1);
    }
  }

  lemma Bits8Half(b: byte)
    ensures Half8(Bits8(b)) == Bits8(b / 2) && Low8(Bits8(b)) == (b % 2 == 1)
  {
    Bits8Low(b);
    HalfOfNumber8(Bits8(b));
  }

  lemma Bits8Low(b: byte)
    ensures Low8(Bits8(b)) == (b % 2 == 1)
  {
  }

  lemma HalfOfNumber8(x: bv8)
    ensures Half8(x) as nat == x as nat / 2
  {
  }

  lemma {:induction false} Bits8Bit(b: byte, i: nat)
    ensures Bit8(Bits8(b), i) == NatBit(b, i)
    decreases i
  {
    Bits8Half(b);
    hide Bits8, Half8, Low8;
    if i > 0 {
      Bits8Bit(b / 2, i - 1);
    }
  }

  lemma Bits8Back(x: bv8)
    ensures Bits8(x as byte) == x
  {
  }

  lemma XorByteIs(a: byte, b: byte)
    ensures XorByte(a, b) == Xor8(Bits8(a), Bits8(b)) as byte
  {
  }

  /** Bytes are combined bit by bit. */
  lemma XorByteBit(a: byte, b: byte, i: nat)
    ensures NatBit(XorByte(a, b), i) == (NatBit(a, i) != NatBit(b, i))
  {
    hide XorByte, Bits8, Xor8, Bit8;
    var x := Xor8(Bits8(a), Bits8(b));
    XorByteIs(a, b);
    Bits8Back(x);
    Bits8Bit(x as byte, i);
    Xor8Bit(Bits8(a), Bits8(b), i);
    Bits8Bit(a, i);
    Bits8Bit(b, i);
  }
}
