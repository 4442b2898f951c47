/** The message representative: hash bytes to words, shifted to the length of the order. */
module Bits2Int {
  import opened Arith
  import opened Bytes
  import opened Words
  import opened Vli

  lemma {:induction false} BigEndianBound(s: seq<byte>)
    ensures BigEndian(s) < Pow2(8 * |s|)
  {
    if |s| > 0 {
      var k: nat := |s| - 1;
      BigEndianBound(s[..k]);
      Pow2Byte(k);
    }
  }

  lemma Pow2Byte(k: nat)
    ensures Pow2(8 * (k + 1)) == 256 * Pow2(8 * k)
  {
    Pow2Add(8 * k, 8);
    assert Pow2(8) == 256;
  }

  /** The bytes of the hash that are used. */
  function HashBytes(hash: seq<byte>, nBits: nat): (r: seq<byte>)
    ensures |r| <= |hash| && 8 * |r| < nBits + 8
  {
    if |hash| > (nBits + 7) / 8 then hash[..(nBits + 7) / 8] else hash
  }

  function ShiftRight(v: nat, s: nat): nat {
    Quotient(v, Pow2(s))
  }

  /** Less the order once, if it is not below it. */
  function ReduceOnce(v: nat, order: nat): nat {
    if order <= v then v - order else v
  }

  /** The integer e of section 4.1.3 of SEC 1 version 2.0, as micro-ecc computes it: the
      leftmost bits of the hash, less the order once if they had to be shifted.  A hash
      that is used unshifted is not reduced. */
  function HashInt(hash: seq<byte>, nBits: nat, order: nat): nat {
    var used := HashBytes(hash, nBits);
    LeadingBits(BigEndian(used), 8 * |used|, nBits, order)
  }

  function LeadingBits(v: nat, e: nat, nBits: nat, order: nat): nat {
    if e <= nBits then v else ReduceOnce(ShiftRight(v, e - nBits), order)
  }

  /** The number that is to be signed, as section 4.1.3 of SEC 1 version 2.0 defines it: the
      leftmost bits of the whole hash, as many as the order has. */
  function MessageNumber(hash: seq<byte>, nBits: nat): nat {
    if 8 * |hash| <= nBits then BigEndian(hash) else Quotient(BigEndian(hash), Pow2(8 * |hash| - nBits))
  }

  lemma {:induction false} LeadingBytesOf(s: seq<byte>, n: nat)
    requires n <= |s|
    ensures BigEndian(s[..n]) == Quotient(BigEndian(s), Pow2(8 * (|s| - n)))
  {
    hide Quotient;
    if n == |s| {
      assert s[..n] == s;
      QuotientUnique(BigEndian(s), 1, BigEndian(s), 0);
    } else {
      var k: nat := |s| - 1;
      LeadingBytesOf(s[..k], n);
      assert s[..k][..n] == s[..n];
      Pow2Byte(k - n);
      QuotientUnique(BigEndian(s), 256, BigEndian(s[..k]), s[k]);
      QuotientOfQuotient(BigEndian(s), 256, Pow2(8 * (k - n)));
    }
  }

  /** A hash with more bytes than the order: those that are cut off are among the bits that
      do not count. */
  lemma LongHash(hash: seq<byte>, nBits: nat)
    requires (nBits + 7) / 8 < |hash|
    ensures var used := HashBytes(hash, nBits);
      nBits <= 8 * |used| && MessageNumber(hash, nBits) == Quotient(BigEndian(used), Pow2(8 * |used| - nBits))
  {
    hide BigEndian, Quotient, Pow2;
    var c := (nBits + 7) / 8;
    LeadingBytesOf(hash, c);
    var low, high := 8 * (|hash| - c), 8 * c - nBits;
    Pow2Add(low, high);
    QuotientOfQuotient(BigEndian(hash), Pow2(low), Pow2(high));
    assert low + high == 8 * |hash| - nBits;
  }

  /** What is signed is the hash: every one of its leftmost bits counts, and it is only ever
      changed by a multiple of the order. */
  lemma HashIntIsHash(hash: seq<byte>, nBits: nat, order: nat)
    ensures var m := MessageNumber(hash, nBits);
      HashInt(hash, nBits, order) == if 8 * |hash| <= nBits || nBits % 8 == 0 || m < order then m else m - order
    ensures 0 < order ==> Cong(HashInt(hash, nBits, order), MessageNumber(hash, nBits), order)
  {
    hide BigEndian, Quotient;
    var m, used := MessageNumber(hash, nBits), HashBytes(hash, nBits);
    if (nBits + 7) / 8 < |hash| {
      LongHash(hash, nBits);
      QuotientUnique(BigEndian(used), 1, BigEndian(used), 0);
    }
    if 0 < order {
      CongFrom(m - order, m, -1, order);
    }
  }

  lemma ShiftRightBound(v: nat, e: nat, s: nat)
    requires v < Pow2(e + s)
    ensures ShiftRight(v, s) < Pow2(e)
  {
    Pow2Add(e, s);
    var x := Pow2(s);
    assert v == x * (v / x) + v % x;
    QuotientBound(v, Pow2(e), x, v / x, v % x);
  }

  lemma HashIntBound(hash: seq<byte>, nBits: nat, order: nat)
    ensures HashInt(hash, nBits, order) < Pow2(nBits)
  {
    var used := HashBytes(hash, nBits);
    BigEndianBound(used);
    LeadingBitsBound(BigEndian(used), 8 * |used|, nBits, order);
  }

  lemma LeadingBitsBound(v: nat, e: nat, nBits: nat, order: nat)
    requires v < Pow2(e)
    ensures LeadingBits(v, e, nBits, order) < Pow2(nBits)
  {
    if e <= nBits {
      Pow2Mono(e, nBits);
    } else {
      ShiftRightBound(v, nBits, e - nBits);
    }
  }

  /** 2^(8 r) */
  function ByteUnit(r: nat): (u: nat)
    requires r < 4
  {
    if r == 0 then 1 else if r == 1 then 0x100 else if r == 2 then 0x1_0000 else 0x100_0000
  }

  lemma ByteWeight(b: nat)
    ensures Pow2(8 * b) == ByteUnit(b % 4) * P(b / 4)
  {
    var q, r := b / 4, b % 4;
    WeightIsPow2(q);
    Pow2Add(32 * q, 8 * r);
    assert Pow2(8) == 256;
    Pow2Add(8, 8);
    Pow2Add(8, 16);
    assert Pow2(8 * r) == ByteUnit(r);
    assert 8 * b == 32 * q + 8 * r;
  }

  lemma RaiseWord(s: seq<Word>, q: nat, d: nat)
    requires q < |s| && s[q] + d < 0x1_0000_0000
    ensures Val(s[q := s[q] + d]) == Val(s) + d * P(q)
  {
    var t := s[q := s[q] + d];
    ValSplit(s, q + 1);
    ValSplit(t, q + 1);
    assert s[q + 1..] == t[q + 1..];
    assert t[..q + 1] == s[..q + 1][q := s[q] + d];
    RaiseTop(s[..q + 1], d);
  }

  /** The bytes of weight `left` and more are in place: the words below are zero, and the
      word that byte `left - 1` belongs to has room for it. */
  ghost predicate RoomFor(s: seq<Word>, left: nat) {
    && left <= 4 * |s|
    && (forall j :: 0 <= j < left / 4 ==> s[j] == 0)
    && (left % 4 != 0 ==> s[left / 4] % ByteUnit(left % 4) == 0)
  }

  lemma PlaceByte(s: seq<Word>, left: nat, x: byte)
    requires RoomFor(s, left) && 1 <= left
    ensures var b := left - 1; var q, d := b / 4, x * ByteUnit(b % 4);
      && s[q] + d < 0x1_0000_0000 && RoomFor(s[q := s[q] + d], b)
      && Val(s[q := s[q] + d]) == Val(s) + x * Pow2(8 * b)
  {
    var b := left - 1;
    var q, r := b / 4, b % 4;
    var d := x * ByteUnit(r);
    RaiseWordRoom(s[q], r, x, left % 4 == 0);
    RaiseWord(s, q, d);
    ByteWeight(b);
    MulAssoc(x, ByteUnit(r), P(q));
  }

  lemma RaiseWordRoom(w: Word, r: nat, x: byte, empty: bool)
    requires r < 4 && empty == (r == 3)
    requires if empty then w == 0 else w % ByteUnit(r + 1) == 0
    ensures w + x * ByteUnit(r) < 0x1_0000_0000 && (w + x * ByteUnit(r)) % ByteUnit(r) == 0
  {
    if r == 2 {
      var k := w / 0x100_0000;
      assert w == k * 0x100_0000;
      DivModUnique(w + x * 0x1_0000, 0x1_0000, k * 0x100 + x, 0);
    } else if r == 1 {
      var k := w / 0x1_0000;
      assert w == k * 0x1_0000;
      DivModUnique(w + x * 0x100, 0x100, k * 0x100 + x, 0);
    } else if r == 0 {
      var k := w / 0x100;
      assert w == k * 0x100;
    }
  }

  /** The first `i` of `n` bytes have been placed in `s`. */
  ghost predicate Placed(s: seq<Word>, bytes: seq<byte>, i: nat, n: nat) {
    i <= n <= |bytes| && RoomFor(s, n - i) && Val(s) == BigEndian(bytes[..i]) * Pow2(8 * (n - i))
  }

  function WordOf(b: nat): nat {
    b / 4
  }

  function ByteInWord(b: nat, x: byte): (d: nat) {
    x * ByteUnit(b % 4)
  }

  lemma PlaceNext(s: seq<Word>, bytes: seq<byte>, i: nat, n: nat)
    requires i < n && Placed(s, bytes, i, n)
    ensures var b := n - 1 - i; var q, d := WordOf(b), ByteInWord(b, bytes[i]);
      q < |s| && s[q] + d < 0x1_0000_0000 && Placed(s[q := s[q] + d], bytes, i + 1, n)
  {
    PlaceByte(s, n - i, bytes[i]);
    assert bytes[..i + 1][..i] == bytes[..i];
    NextByte(BigEndian(bytes[..i]), bytes[i], n - 1 - i);
  }

  lemma NextByte(v: int, x: int, b: nat)
    ensures (v * 256 + x) * Pow2(8 * b) == v * Pow2(8 * (b + 1)) + x * Pow2(8 * b)
  {
    Pow2Add(8, 8 * b);
    assert Pow2(8) == 256;
    MulDistrib(v * 256, x, Pow2(8 * b));
    MulAssoc(v, 256, Pow2(8 * b));
  }

  lemma Unplaced(s: seq<Word>, bytes: seq<byte>, n: nat)
    requires n <= |bytes| && |s| == (n + 3) / 4 && Val(s) == 0
    ensures Placed(s, bytes, 0, n)
  {
    ValZeros(s);
  }

  lemma AllPlaced(s: seq<Word>, bytes: seq<byte>, n: nat)
    requires Placed(s, bytes, n, n)
    ensures Val(s) == BigEndian(bytes[..n])
  {
  }

  /** Big-endian bytes to words, lines 1010-1020. */
  method BytesToNative(native: array<Word>, bytes: seq<byte>, numBytes: nat)
    requires numBytes <= |bytes| && (numBytes + 3) / 4 <= native.Length
    modifies native
    ensures Val(native[..(numBytes + 3) / 4]) == BigEndian(bytes[..numBytes])
    ensures native[(numBytes + 3) / 4..] == old(native[(numBytes + 3) / 4..])
  {
    hide BigEndian, ByteUnit, Val, Pow2;
    var words := (numBytes + 3) / 4;
    Clear(native, words);
    Unplaced(native[..words], bytes, numBytes);
    for i := 0 to numBytes
      invariant native[words..] == old(native[words..])
      invariant Placed(native[..words], bytes, i, numBytes)
    {
      var b := numBytes - 1 - i;
      var q, d := WordOf(b), ByteInWord(b, bytes[i]);
      ghost var s := native[..words];
      PlaceNext(s, bytes, i, numBytes);
      native[q] := native[q] + d;
      assert native[..words] == s[q := s[q] + d];
    }
    AllPlaced(native[..words], bytes, numBytes);
  }

  /** `done` is `s` shifted right, and `carry` the bits that fall into the next word. */
  ghost predicate RightShifted(done: seq<Word>, s: seq<Word>, shift: nat, carry: Word) {
    exists rem: nat :: RightShiftedBy(done, s, shift, carry, rem)
  }

  ghost predicate RightShiftedBy(done: seq<Word>, s: seq<Word>, shift: nat, carry: Word, rem: nat) {
    && 0 < shift < 32 && rem < Pow2(shift) && carry == rem * Pow2(32 - shift)
    && Val(s) == Val(done) * Pow2(shift) + rem
  }

  /** temp >> shift, with the bits carried into it: they are above those that stay. */
  function ShiftedWord(temp: Word, shift: nat, carry: Word): int {
    Quotient(temp, Pow2(shift)) + carry
  }

  /** temp << (32 - shift), in one word */
  function CarriedWord(temp: Word, shift: nat): (c: Word)
    requires shift < 32
  {
    (temp * Pow2(32 - shift)) % 0x1_0000_0000
  }

  lemma RightShiftStep(done: seq<Word>, s: seq<Word>, shift: nat, c: Word, temp: Word)
    requires RightShifted(done, s, shift, c)
    ensures 0 <= ShiftedWord(temp, shift, c) < 0x1_0000_0000
    ensures RightShifted([ShiftedWord(temp, shift, c)] + done, [temp] + s, shift, CarriedWord(temp, shift))
  {
    var rem: nat :| RightShiftedBy(done, s, shift, c, rem);
    var x, y := Pow2(shift), Pow2(32 - shift);
    Pow2Add(shift, 32 - shift);
    Pow2Word();
    RightShiftInts(temp, x, y, rem);
    var word := ShiftedWord(temp, shift, c);
    ValCons(word, done);
    ValCons(temp, s);
    RightShiftColumn(temp, Quotient(temp, x), temp % x, rem, x, y, Val(done));
    assert RightShiftedBy([word] + done, [temp] + s, shift, CarriedWord(temp, shift), temp % x);
  }

  lemma RightShiftInts(t: nat, x: nat, y: nat, rem: nat)
    requires 0 < x && 0 < y && t < x * y && rem < x
    ensures 0 <= Quotient(t, x) + rem * y < x * y
    ensures t == Quotient(t, x) * x + t % x && 0 <= t % x < x
    ensures (t * y) % (x * y) == (t % x) * y
  {
    var q, r := t / x, t % x;
    assert t == x * q + r;
    MulPos(x, y);
    QuotientBound(t, y, x, q, r);
    MulMono(rem + 1, x, y);
    MulMono(r + 1, x, y);
    MulMono(0, r, y);
    MulMono(0, rem, y);
    MulDistrib(rem, 1, y);
    MulDistrib(r, 1, y);
    MulDistrib(x * q, r, y);
    MulAssoc(x, q, y);
    MulAssoc(q, x, y);
    DivModUnique(t * y, x * y, q, r * y);
  }

  lemma RightShiftColumn(t: int, q: int, r: int, rem: int, x: int, y: int, v: int)
    requires t == q * x + r && x * y == 0x1_0000_0000
    ensures t + 0x1_0000_0000 * (v * x + rem) == (q + rem * y + 0x1_0000_0000 * v) * x + r
  {
    MulDistrib(q + rem * y, 0x1_0000_0000 * v, x);
    MulDistrib(q, rem * y, x);
    MulAssoc(rem, y, x);
    MulAssoc(0x1_0000_0000, v, x);
    assert rem * (y * x) == rem * 0x1_0000_0000;
  }

  lemma RightShiftDone(done: seq<Word>, s: seq<Word>, shift: nat, c: Word)
    requires RightShifted(done, s, shift, c)
    ensures Val(done) == ShiftRight(Val(s), shift)
  {
    var rem: nat :| RightShiftedBy(done, s, shift, c, rem);
    DivModUnique(Val(s), Pow2(shift), Val(done), rem);
  }

  lemma NothingShifted(shift: nat)
    requires 0 < shift < 32
    ensures RightShifted([], [], shift, 0)
  {
    assert RightShiftedBy([], [], shift, 0, 0);
  }

  /** Lines 1237-1244: shifting all the words right by a few bits, from the top down. */
  method ShiftWordsRight(native: array<Word>, n: nat, shift: nat)
    requires n <= native.Length && 0 < shift < 32
    modifies native
    ensures Num(native, n) == ShiftRight(old(Num(native, n)), shift)
    ensures native[n..] == old(native[n..])
  {
    hide Val, Pow2, RightShiftedBy;
    var carry: Word := 0;
    var ptr := n;
    ghost var s := native[..n];
    NothingShifted(shift);
    assert native[n..n] == [] && s[n..] == [];
    while ptr > 0
      invariant 0 <= ptr <= n && native[..ptr] == s[..ptr] && native[n..] == old(native[n..])
      invariant RightShifted(native[ptr..n], s[ptr..], shift, carry)
    {
      ptr := ptr - 1;
      var temp := native[ptr];
      ghost var done := native[ptr + 1..n];
      RightShiftStep(done, s[ptr + 1..], shift, carry, temp);
      native[ptr] := ShiftedWord(temp, shift, carry);
      carry := CarriedWord(temp, shift);
      assert s[ptr..] == [temp] + s[ptr + 1..];
      assert native[ptr..n] == [native[ptr]] + done;
    }
    RightShiftDone(native[..n], s, shift, carry);
    assert native[0..n] == native[..n] && s[0..] == s;
  }

  lemma HighWordsClear(s: seq<Word>, words: nat, clear: seq<Word>, high: seq<Word>)
    requires words <= |s| <= words + |high| && clear == high && s[words..] == high[..|s| - words]
    requires forall j :: 0 <= j < |s| - words ==> clear[j] == 0
    ensures Val(s) == Val(s[..words])
  {
    assert forall j :: words <= j < |s| ==> s[j] == s[words..][j - words];
    ValDropZeros(s, words);
  }

  /** Lines 1224-1233. */
  method LoadBytes(native: array<Word>, used: seq<byte>, n: nat)
    requires (|used| + 3) / 4 <= n <= native.Length
    modifies native
    ensures Num(native, n) == BigEndian(used)
  {
    var words := (|used| + 3) / 4;
    Clear(native, n);
    ghost var clear := native[words..];
    BytesToNative(native, used, |used|);
    assert used[..|used|] == used;
    assert native[..n][..words] == native[..words];
    HighWordsClear(native[..n], words, clear, native[words..]);
  }

  /** Lines 1247-1249. */
  method ReduceInPlace(native: array<Word>, order: array<Word>, n: nat)
    requires n <= native.Length && n <= order.Length && native != order
    modifies native
    ensures Num(native, n) == ReduceOnce(old(Num(native, n)), Num(order, n))
  {
    var c := CmpUnsafe(order, native, n);
    if c != 1 {
      ghost var v, m := Num(native, n), Num(order, n);
      var b := Sub(native, native, order, n);
      ValBound(native[..n]);
    }
  }

  /** Lines 1214-1250. */
  method Bits2int(native: array<Word>, bits: seq<byte>, order: array<Word>, nBits: nat, n: nat)
    requires n == (nBits + 31) / 32 && n <= native.Length && n <= order.Length && native != order
    modifies native
    ensures Num(native, n) == HashInt(bits, nBits, Num(order, n))
  {
    var used := HashBytes(bits, nBits);
    LoadBytes(native, used, n);
    if 8 * |used| <= nBits {
      return;
    }
    ShiftWordsRight(native, n, 8 * |used| - nBits);
    ReduceInPlace(native, order, n);
  }
}
