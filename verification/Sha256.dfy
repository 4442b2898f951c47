/** SHA-256: the compression of one block, and messages taken piece by piece. */
module Sha256 {
  import opened Bytes

  const K: seq<bv32> :=
    [0x428a2f98, 0x71374491, 0xb5c0fbcf, 0xe9b5dba5, 0x3956c25b, 0x59f111f1, 0x923f82a4, 0xab1c5ed5] +
    [0xd807aa98, 0x12835b01, 0x243185be, 0x550c7dc3, 0x72be5d74, 0x80deb1fe, 0x9bdc06a7, 0xc19bf174] +
    [0xe49b69c1, 0xefbe4786, 0x0fc19dc6, 0x240ca1cc, 0x2de92c6f, 0x4a7484aa, 0x5cb0a9dc, 0x76f988da] +
    [0x983e5152, 0xa831c66d, 0xb00327c8, 0xbf597fc7, 0xc6e00bf3, 0xd5a79147, 0x06ca6351, 0x14292967] +
    [0x27b70a85, 0x2e1b2138, 0x4d2c6dfc, 0x53380d13, 0x650a7354, 0x766a0abb, 0x81c2c92e, 0x92722c85] +
    [0xa2bfe8a1, 0xa81a664b, 0xc24b8b70, 0xc76c51a3, 0xd192e819, 0xd6990624, 0xf40e3585, 0x106aa070] +
    [0x19a4c116, 0x1e376c08, 0x2748774c, 0x34b0bcb5, 0x391c0cb3, 0x4ed8aa4a, 0x5b9cca4f, 0x682e6ff3] +
    [0x748f82ee, 0x78a5636f, 0x84c87814, 0x8cc70208, 0x90befffa, 0xa4506ceb, 0xbef9a3f7, 0xc67178f2]

  const IV: seq<bv32> := [
    0x6a09e667, 0xbb67ae85, 0x3c6ef372, 0xa54ff53a, 0x510e527f, 0x9b05688c, 0x1f83d9ab, 0x5be0cd19
  ]

  function RotRight(x: bv32, n: bv6): bv32
    requires n <= 32
  {
    (x >> n) | (x << (32 - n))
  }

  function Ch(x: bv32, y: bv32, z: bv32): bv32 {
    (x & y) ^ (!x & z)
  }

  function Maj(x: bv32, y: bv32, z: bv32): bv32 {
    (x & y) ^ (x & z) ^ (y & z)
  }

  function Xor3(x: bv32, y: bv32, z: bv32): bv32 {
    x ^ y ^ z
  }

  function ShiftRight(x: bv32, n: bv6): bv32
    requires n <= 32
  {
    x >> n
  }

  function Ep0(x: bv32): bv32 {
    Xor3(RotRight(x, 2), RotRight(x, 13), RotRight(x, 22))
  }

  function Ep1(x: bv32): bv32 {
    Xor3(RotRight(x, 6), RotRight(x, 11), RotRight(x, 25))
  }

  function Sig0(x: bv32): bv32 {
    Xor3(RotRight(x, 7), RotRight(x, 18), ShiftRight(x, 3))
  }

  function Sig1(x: bv32): bv32 {
    Xor3(RotRight(x, 17), RotRight(x, 19), ShiftRight(x, 10))
  }

  type Chunk = s: seq<byte> | |s| == 64 witness seq(64, i => 0)
  type Hash = h: seq<bv32> | |h| == 8 witness [0, 0, 0, 0, 0, 0, 0, 0]

  function Widen(b: byte): bv32 {
    b as bv32
  }

  function Narrow(x: bv32): byte
    requires x < 256
  {
    x as byte
  }

  function Join(a: bv32, b: bv32, c: bv32, d: bv32): bv32 {
    (a << 24) | (b << 16) | (c << 8) | d
  }

  /** Word `i` of a block, first byte highest. */
  function WordAt(block: Chunk, i: nat): bv32
    requires i < 16
  {
    Join(Widen(block[4 * i]), Widen(block[4 * i + 1]), Widen(block[4 * i + 2]), Widen(block[4 * i + 3]))
  }

  function NextWord(a: bv32, b: bv32, c: bv32, d: bv32): bv32 {
    Sig1(a) + b + Sig0(c) + d
  }

  /** The first `t` words of the message schedule, section 6.2.2 of FIPS 180-4. */
  function Schedule(block: Chunk, t: nat): (w: seq<bv32>)
    requires t <= 64
    ensures |w| == t
  {
    if t == 0 then []
    else
      var w := Schedule(block, t - 1);
      w + [if t <= 16 then WordAt(block, t - 1) else NextWord(w[t - 3], w[t - 8], w[t - 16], w[t - 17])]
  }

  /** The working variables a to h. */
  datatype Regs = Regs(a: bv32, b: bv32, c: bv32, d: bv32, e: bv32, f: bv32, g: bv32, h: bv32)

  function Plus(x: bv32, y: bv32): bv32 {
    x + y
  }

  function Temp1(e: bv32, f: bv32, g: bv32, h: bv32, k: bv32, w: bv32): bv32 {
    h + Ep1(e) + Ch(e, f, g) + k + w
  }

  function Temp2(a: bv32, b: bv32, c: bv32): bv32 {
    Ep0(a) + Maj(a, b, c)
  }

  function Round(r: Regs, k: bv32, w: bv32): Regs {
    var t1 := Temp1(r.e, r.f, r.g, r.h, k, w);
    Regs(Plus(t1, Temp2(r.a, r.b, r.c)), r.a, r.b, r.c, Plus(r.d, t1), r.e, r.f, r.g)
  }

  function Rounds(r: Regs, k: seq<bv32>, w: seq<bv32>, t: nat): Regs
    requires t <= |w| == |k|
  {
    if t == 0 then r else Round(Rounds(r, k, w, t - 1), k[t - 1], w[t - 1])
  }

  function Start(h: Hash): Regs {
    Regs(h[0], h[1], h[2], h[3], h[4], h[5], h[6], h[7])
  }

  function AddRegs(h: Hash, r: Regs): Hash {
    [Plus(h[0], r.a), Plus(h[1], r.b), Plus(h[2], r.c), Plus(h[3], r.d),
     Plus(h[4], r.e), Plus(h[5], r.f), Plus(h[6], r.g), Plus(h[7], r.h)]
  }

  /** One block, from the hash value before it. */
  function Compress(h: Hash, block: Chunk): Hash {
    AddRegs(h, Rounds(Start(h), K, Schedule(block, |block|), |block|))
  }

  /** Whole blocks, one after the other. */
  function Fold(h: Hash, s: seq<byte>): Hash
    requires |s| % 64 == 0
    decreases |s|
  {
    if |s| == 0 then h else Fold(Compress(h, s[..64]), s[64..])
  }

  lemma {:induction false} FoldSnoc(h: Hash, s: seq<byte>, block: Chunk)
    requires |s| % 64 == 0
    ensures Fold(h, s + block) == Compress(Fold(h, s), block)
    decreases |s|
  {
    hide Compress;
    if |s| == 0 {
      assert s + block == block && block[..64] == block && block[64..] == [];
    } else {
      assert (s + block)[..64] == s[..64] && (s + block)[64..] == s[64..] + block;
      FoldSnoc(Compress(h, s[..64]), s[64..], block);
    }
  }

  /** The byte of `v` with the given weight. */
  function ByteWith(v: nat, weight: nat): byte
    requires 0 < weight
  {
    v / weight % 256
  }

  /** The length in bits, in eight bytes. */
  function LengthBytes(v: nat): (r: seq<byte>)
    ensures |r| == 8
  {
    [ByteWith(v, 0x100_0000_0000_0000), ByteWith(v, 0x1_0000_0000_0000), ByteWith(v, 0x100_0000_0000),
     ByteWith(v, 0x1_0000_0000), ByteWith(v, 0x100_0000), ByteWith(v, 0x1_0000), ByteWith(v, 0x100), ByteWith(v, 1)]
  }

  /** How many zero bytes follow the bit 1, section 5.1.1 of FIPS 180-4. */
  function ZerosNeeded(n: nat): (k: nat)
    ensures k < 64 && (n + 1 + k) % 64 == 56
  {
    (119 - n % 64) % 64
  }

  function Mod64(v: nat): nat {
    v % 0x1_0000_0000_0000_0000
  }

  function Pad(msg: seq<byte>): (r: seq<byte>)
    ensures |r| % 64 == 0
  {
    PadLength(|msg|);
    msg + [0x80] + Zeros(ZerosNeeded(|msg|)) + LengthBytes(Mod64(8 * |msg|))
  }

  lemma PadLength(n: nat)
    ensures (n + 1 + ZerosNeeded(n) + 8) % 64 == 0
  {
    var x := n + 1 + ZerosNeeded(n);
    assert x % 64 == 56;
  }

  function LowByte(x: bv32): (r: bv32)
    ensures r < 256
  {
    x & 0xff
  }

  function WordBytes(x: bv32): (r: seq<byte>)
    ensures |r| == 4
  {
    [Narrow(LowByte(x >> 24)), Narrow(LowByte(x >> 16)), Narrow(LowByte(x >> 8)), Narrow(LowByte(x))]
  }

  /** The words from `k` on, in bytes. */
  function Words(h: Hash, k: nat): (r: seq<byte>)
    requires k <= 8
    ensures |r| == 4 * (8 - k)
    decreases 8 - k
  {
    if k == 8 then [] else WordBytes(h[k]) + Words(h, k + 1)
  }

  function Output(h: Hash): (r: seq<byte>)
    ensures |r| == 32
  {
    Words(h, 0)
  }

  /** The SHA-256 digest. */
  function Digest(msg: seq<byte>): (r: seq<byte>)
    ensures |r| == 32
  {
    Output(Fold(IV, Pad(msg)))
  }

  /** The last one or two blocks of a message of `n` bytes that ends with `tail`. */
  function LastBlocks(tail: seq<byte>, n: nat): (r: seq<byte>)
    requires |tail| < 64
    ensures |r| == if |tail| < 56 then 64 else 128
  {
    tail + [0x80] + Zeros(if |tail| < 56 then 55 - |tail| else 119 - |tail|) + LengthBytes(Mod64(8 * n))
  }

  lemma PadSplits(msg: seq<byte>, q: nat)
    requires 64 * q <= |msg| < 64 * q + 64
    ensures Pad(msg) == msg[..64 * q] + LastBlocks(msg[64 * q..], |msg|)
  {
    var d := |msg| - 64 * q;
    assert |msg| % 64 == d;
    assert ZerosNeeded(|msg|) == if d < 56 then 55 - d else 119 - d;
    assert msg == msg[..64 * q] + msg[64 * q..];
  }

  /** SHA256_CTX. */
  class Context {
    const data: array<byte>
    var datalen: nat
    var bitlen: nat
    var state: Hash
    ghost var blocks: nat

    /** Everything taken in so far is `msg`: whole blocks are in the hash value, the rest is
        in the buffer. */
    ghost predicate Absorbed(msg: seq<byte>)
      reads this, data
    {
      && data.Length == 64 && datalen < 64 && |msg| == 64 * blocks + datalen
      && data[..datalen] == msg[64 * blocks..] && state == Fold(IV, msg[..64 * blocks])
      && bitlen == Mod64(512 * blocks)
    }

    constructor ()
      ensures Absorbed([]) && fresh(data)
    {
      data := new byte[64](i => 0);
      datalen, bitlen, blocks := 0, 0, 0;
      state := IV;
    }

    /** Lines 28-31: the message schedule of the block in the buffer. */
    method MessageSchedule() returns (m: array<bv32>)
      requires data.Length == 64
      ensures fresh(m) && m[..] == Schedule(data[..], 64)
    {
      hide NextWord, WordAt;
      ghost var block: Chunk := data[..];
      m := new bv32[64];
      for i := 0 to 16
        invariant fresh(m) && data[..] == block && m[..i] == Schedule(block, i)
      {
        m[i] := WordAt(data[..], i);
        assert m[..i + 1] == m[..i] + [m[i]];
      }
      for i := 16 to 64
        invariant fresh(m) && data[..] == block && m[..i] == Schedule(block, i)
      {
        ghost var w := m[..i];
        m[i] := NextWord(m[i - 2], m[i - 7], m[i - 15], m[i - 16]);
        assert m[i - 2] == w[i - 2] && m[i - 7] == w[i - 7] && m[i - 15] == w[i - 15] && m[i - 16] == w[i - 16];
        assert m[..i + 1] == w + [m[i]];
      }
      assert m[..64] == m[..];
    }

    /** sha256_transform on the buffer. */
    method Transform()
      requires data.Length == 64
      modifies this`state
      ensures state == Compress(old(state), data[..])
    {
      hide Round, Schedule, Start, AddRegs;
      var m := MessageSchedule();
      ghost var w := m[..];
      var r := Start(state);
      for i := 0 to 64
        invariant m[..] == w && r == Rounds(Start(state), K, w, i)
      {
        r := Round(r, K[i], m[i]);
      }
      state := AddRegs(state, r);
    }

    /** One byte of sha256_update. */
    method AddByte(b: byte, ghost msg: seq<byte>)
      requires Absorbed(msg)
      modifies this, data
      ensures Absorbed(msg + [b])
    {
      hide Compress, Mod64;
      ghost var done := msg[..64 * blocks];
      data[datalen] := b;
      datalen := datalen + 1;
      assert data[..datalen] == msg[64 * blocks..] + [b];
      if datalen == 64 {
        Transform();
        bitlen := Mod64(bitlen + 512);
        datalen := 0;
        blocks := blocks + 1;
        assert data[..64] == data[..];
        assert (msg + [b])[..64 * blocks] == done + data[..];
        FoldSnoc(IV, done, data[..]);
        BitsAdd(blocks - 1, 512);
      } else {
        assert (msg + [b])[..64 * blocks] == done && (msg + [b])[64 * blocks..] == msg[64 * blocks..] + [b];
      }
    }

    method Update(input: seq<byte>, ghost msg: seq<byte>)
      requires Absorbed(msg)
      modifies this, data
      ensures Absorbed(msg + input)
    {
      hide Absorbed;
      assert msg + input[..0] == msg;
      for i := 0 to |input|
        invariant Absorbed(msg + input[..i])
      {
        AddByte(input[i], msg + input[..i]);
        assert msg + input[..i + 1] == msg + input[..i] + [input[i]];
      }
      assert input[..|input|] == input;
    }

    /** A bit 1, and zeros up to `to`: lines 101-103 and 106-108. */
    method FillTo(to: nat)
      requires data.Length == 64 && datalen < to <= 64
      modifies data
      ensures data[..to] == old(data[..datalen]) + [0x80] + Zeros(to - datalen - 1)
    {
      ghost var tail := data[..datalen];
      var i := datalen;
      data[i] := 0x80;
      i := i + 1;
      while i < to
        invariant datalen < i <= to && data[..i] == tail + [0x80] + Zeros(i - datalen - 1)
      {
        data[i] := 0;
        i := i + 1;
      }
    }

    method ClearFront()
      requires data.Length == 64
      modifies data
      ensures data[..56] == Zeros(56)
    {
      for i := 0 to 56
        invariant data[..i] == Zeros(i)
      {
        data[i] := 0;
      }
    }

    /** Lines 115-122. */
    method StoreLength()
      requires data.Length == 64
      modifies data
      ensures data[..] == old(data[..56]) + LengthBytes(bitlen)
    {
      hide ByteWith;
      data[63] := ByteWith(bitlen, 1);
      data[62] := ByteWith(bitlen, 0x100);
      data[61] := ByteWith(bitlen, 0x1_0000);
      data[60] := ByteWith(bitlen, 0x100_0000);
      data[59] := ByteWith(bitlen, 0x1_0000_0000);
      data[58] := ByteWith(bitlen, 0x100_0000_0000);
      data[57] := ByteWith(bitlen, 0x1_0000_0000_0000);
      data[56] := ByteWith(bitlen, 0x100_0000_0000_0000);
    }

    /** Lines 98-112: everything of the padding but the length, with the first of two blocks
        compressed if there are two. */
    method PadBuffer(ghost msg: seq<byte>) returns (ghost whole: seq<byte>)
      requires Absorbed(msg)
      modifies this`state, data
      ensures |whole| % 64 == 0 && state == Fold(IV, whole)
      ensures Pad(msg) == whole + data[..56] + LengthBytes(Mod64(8 * |msg|))
    {
      hide Compress, LengthBytes, Mod64, Pad;
      whole := msg[..64 * blocks];
      PadSplits(msg, blocks);
      if datalen < 56 {
        FillTo(56);
      } else {
        FillTo(64);
        assert data[..64] == data[..];
        FoldSnoc(IV, whole, data[..]);
        whole := whole + data[..];
        Transform();
        ClearFront();
      }
    }

    /** sha256_final: the digest of everything taken in. */
    method Final(ghost msg: seq<byte>) returns (hash: seq<byte>)
      requires Absorbed(msg)
      modifies this, data
      ensures hash == Digest(msg)
    {
      hide Compress, LengthBytes, Mod64, Output, Pad;
      BitsAdd(blocks, datalen * 8);
      ghost var whole := PadBuffer(msg);
      bitlen := Mod64(bitlen + datalen * 8);
      StoreLength();
      FoldSnoc(IV, whole, data[..]);
      assert whole + data[..] == Pad(msg);
      Transform();
      hash := Output(state);
    }
  }

  lemma BitsAdd(q: nat, d: nat)
    ensures Mod64(Mod64(512 * q) + d) == Mod64(512 * q + d)
  {
  }

  function XorByte(a: byte, b: byte): byte {
    ((a as bv8) ^ (b as bv8)) as byte
  }

  /** The key in 64 bytes, hashed first if it is longer. */
  function HmacKey(key: seq<byte>): (r: seq<byte>)
    ensures |r| == 64
  {
    var k := if |key| > 64 then Digest(key) else key;
    k + Zeros(64 - |k|)
  }

  function Padded(key: seq<byte>, pad: byte): (r: seq<byte>)
    ensures |r| == |key|
  {
    seq(|key|, i requires 0 <= i < |key| => XorByte(key[i], pad))
  }

  /** HMAC, section 2 of RFC 2104. */
  function Hmac(key: seq<byte>, text: seq<byte>): (r: seq<byte>)
    ensures |r| == 32
  {
    var k := HmacKey(key);
    Digest(Padded(k, 0x5c) + Digest(Padded(k, 0x36) + text))
  }

  /** A digest in one update. */
  method DigestOf(s: seq<byte>, t: seq<byte>) returns (hash: seq<byte>)
    ensures hash == Digest(s + t)
  {
    hide Digest;
    var ctx := new Context();
    ctx.Update(s, []);
    assert [] + s == s;
    ctx.Update(t, s);
    hash := ctx.Final(s + t);
  }

  method HmacSha256(key: seq<byte>, text: seq<byte>) returns (mac: seq<byte>)
    ensures mac == Hmac(key, text)
  {
    hide Digest, XorByte;
    var k := key;
    if |key| > 64 {
      k := DigestOf(key, []);
      assert key + [] == key;
    }
    var ipad, opad := new byte[64](i => 0), new byte[64](i => 0);
    for i := 0 to |k|
      invariant fresh(ipad) && fresh(opad) && ipad != opad
      invariant ipad[..i] == k[..i] && opad[..i] == k[..i]
      invariant forall j :: i <= j < 64 ==> ipad[j] == 0 && opad[j] == 0
    {
      ipad[i] := k[i];
      opad[i] := k[i];
    }
    assert ipad[..] == HmacKey(key) && opad[..] == HmacKey(key);
    XorAll(ipad, 0x36);
    XorAll(opad, 0x5c);
    mac := DigestOf(ipad[..], text);
    mac := DigestOf(opad[..], mac);
  }

  method XorAll(a: array<byte>, pad: byte)
    modifies a
    ensures a[..] == Padded(old(a[..]), pad)
  {
    hide XorByte;
    for i := 0 to a.Length
      invariant forall j :: 0 <= j < i ==> a[j] == XorByte(old(a[j]), pad)
      invariant forall j :: i <= j < a.Length ==> a[j] == old(a[j])
    {
      a[i] := XorByte(a[i], pad);
    }
  }
}
