/** SHA-256 as FIPS 180-4 defines it, and HMAC as RFC 2104 does: equations that determine
    every digest, and that the functions of Sha256 meet. */
module Fips180 {
  import opened Bytes
  import opened Sha256
  import opened Sha256Bits
  import opened Sha256Bytes

  ghost predicate IsNextWord(x: bv32, w2: bv32, w7: bv32, w15: bv32, w16: bv32) {
    x == Sig1(w2) + w7 + Sig0(w15) + w16
  }

  /** Word `t` of the message schedule, step 1 of section 6.2.2. */
  ghost predicate ScheduledAt(w: seq<bv32>, block: Chunk, t: nat)
    requires t < |w| == 64
  {
    if t < 16 then IsWord(w[t], block[4 * t..4 * t + 4]) else IsNextWord(w[t], w[t - 2], w[t - 7], w[t - 15], w[t - 16])
  }

  ghost predicate Scheduled(w: seq<bv32>, block: Chunk) {
    |w| == 64 && forall t: nat :: t < 64 ==> ScheduledAt(w, block, t)
  }

  ghost predicate IsSum(z: bv32, x: bv32, y: bv32) {
    z == x + y
  }

  ghost predicate IsT1(t1: bv32, e: bv32, f: bv32, g: bv32, h: bv32, k: bv32, w: bv32) {
    t1 == h + Ep1(e) + Ch(e, f, g) + k + w
  }

  ghost predicate IsT2(t2: bv32, a: bv32, b: bv32, c: bv32) {
    t2 == Ep0(a) + Maj(a, b, c)
  }

  /** Step 3 of section 6.2.2: the new a and e, from the last four of each. */
  ghost predicate RoundEquations(a: bv32, e: bv32, a1: bv32, a2: bv32, a3: bv32, a4: bv32,
                                 e1: bv32, e2: bv32, e3: bv32, e4: bv32, k: bv32, w: bv32) {
    exists t1, t2 :: IsT1(t1, e1, e2, e3, e4, k, w) && IsT2(t2, a1, a2, a3) && IsSum(a, t1, t2) && IsSum(e, a4, t1)
  }

  /** Round `t`, in the sequences of all values of a and e: what was a four rounds before is
      d now, and what was e is h. */
  ghost predicate IsRound(a: seq<bv32>, e: seq<bv32>, k: seq<bv32>, w: seq<bv32>, t: nat)
    requires t < |w| == |k| && t + 5 <= |a| && t + 5 <= |e|
  {
    RoundEquations(a[t + 4], e[t + 4], a[t + 3], a[t + 2], a[t + 1], a[t], e[t + 3], e[t + 2], e[t + 1], e[t], k[t], w[t])
  }

  /** The first `n` rounds, from the hash value `h`. */
  ghost predicate Worked(a: seq<bv32>, e: seq<bv32>, h: Hash, k: seq<bv32>, w: seq<bv32>, n: nat)
    requires n <= |w| == |k|
  {
    && |a| == |e| == n + 4
    && a[..4] == [h[3], h[2], h[1], h[0]] && e[..4] == [h[7], h[6], h[5], h[4]]
    && (forall t: nat :: t < n ==> IsRound(a, e, k, w, t))
  }

  /** Step 4 of section 6.2.2: the last values, the newest first, are added. */
  ghost predicate Added(next: Hash, h: Hash, a: seq<bv32>, e: seq<bv32>)
    requires |a| == |e| == 68
  {
    && IsSum(next[0], h[0], a[67]) && IsSum(next[1], h[1], a[66]) && IsSum(next[2], h[2], a[65])
    && IsSum(next[3], h[3], a[64]) && IsSum(next[4], h[4], e[67]) && IsSum(next[5], h[5], e[66])
    && IsSum(next[6], h[6], e[65]) && IsSum(next[7], h[7], e[64])
  }

  ghost predicate StepBy(h: Hash, block: Chunk, next: Hash, w: seq<bv32>, a: seq<bv32>, e: seq<bv32>) {
    Scheduled(w, block) && Worked(a, e, h, K, w, 64) && Added(next, h, a, e)
  }

  /** `next` is the hash value after `block`. */
  ghost predicate HashStep(h: Hash, block: Chunk, next: Hash) {
    exists w, a, e :: StepBy(h, block, next, w, a, e)
  }

  lemma {:induction false} SchedulePrefix(block: Chunk, t: nat, n: nat)
    requires t <= n <= 64
    ensures Schedule(block, n)[..t] == Schedule(block, t)
    decreases n
  {
    hide NextWord, WordAt;
    if t < n {
      SchedulePrefix(block, t, n - 1);
      assert Schedule(block, n)[..t] == Schedule(block, n - 1)[..t];
    } else {
      assert Schedule(block, n)[..n] == Schedule(block, n);
    }
  }

  lemma NextWordIs(w2: bv32, w7: bv32, w15: bv32, w16: bv32)
    ensures IsNextWord(NextWord(w2, w7, w15, w16), w2, w7, w15, w16)
  {
    hide Sig0, Sig1;
  }

  lemma ScheduleAt(block: Chunk, t: nat)
    requires t < 64
    ensures ScheduledAt(Schedule(block, 64), block, t)
  {
    hide NextWord, IsNextWord, WordAt, IsWord;
    var w := Schedule(block, 64);
    SchedulePrefix(block, t + 1, 64);
    SchedulePrefix(block, t, 64);
    assert w[t] == w[..t + 1][t];
    if t < 16 {
      WordAtIsWord(block, t);
    } else {
      assert w[..t][t - 2] == w[t - 2] && w[..t][t - 7] == w[t - 7];
      assert w[..t][t - 15] == w[t - 15] && w[..t][t - 16] == w[t - 16];
      NextWordIs(w[t - 2], w[t - 7], w[t - 15], w[t - 16]);
    }
  }

  lemma ScheduleMeets(block: Chunk)
    ensures Scheduled(Schedule(block, 64), block)
  {
    hide Schedule, ScheduledAt;
    forall t: nat | t < 64
      ensures ScheduledAt(Schedule(block, 64), block, t)
    {
      ScheduleAt(block, t);
    }
  }

  /** The working variables, four values each of the two sequences. */
  ghost predicate InRegs(r: Regs, a: seq<bv32>, e: seq<bv32>, n: nat)
    requires |a| == |e| == n + 4
  {
    r == Regs(a[n + 3], a[n + 2], a[n + 1], a[n], e[n + 3], e[n + 2], e[n + 1], e[n])
  }

  ghost predicate WorkedTo(a: seq<bv32>, e: seq<bv32>, h: Hash, k: seq<bv32>, w: seq<bv32>, n: nat)
    requires n <= |w| == |k|
  {
    Worked(a, e, h, k, w, n) && InRegs(Rounds(Start(h), k, w, n), a, e, n)
  }

  lemma {:induction false} RoundsMeet(h: Hash, k: seq<bv32>, w: seq<bv32>, n: nat)
    requires n <= |w| == |k|
    ensures exists a, e :: WorkedTo(a, e, h, k, w, n)
  {
    if n == 0 {
      assert WorkedTo([h[3], h[2], h[1], h[0]], [h[7], h[6], h[5], h[4]], h, k, w, 0);
    } else {
      RoundsMeet(h, k, w, n - 1);
      var a, e :| WorkedTo(a, e, h, k, w, n - 1);
      NextRoundMeets(a, e, h, k, w, n - 1, n);
    }
  }

  lemma TempsMeet(a: bv32, b: bv32, c: bv32, e: bv32, f: bv32, g: bv32, h: bv32, k: bv32, w: bv32)
    ensures IsT1(Temp1(e, f, g, h, k, w), e, f, g, h, k, w) && IsT2(Temp2(a, b, c), a, b, c)
  {
    hide Ep0, Ep1, Ch, Maj;
  }

  lemma PlusIsSum(x: bv32, y: bv32)
    ensures IsSum(Plus(x, y), x, y)
  {
  }

  lemma RoundMeets(r: Regs, k: bv32, w: bv32)
    ensures var s := Round(r, k, w);
      && RoundEquations(s.a, s.e, r.a, r.b, r.c, r.d, r.e, r.f, r.g, r.h, k, w)
      && s.b == r.a && s.c == r.b && s.d == r.c && s.f == r.e && s.g == r.f && s.h == r.g
  {
    hide IsT1, IsT2, IsSum, Plus, Temp1, Temp2;
    var t1, t2 := Temp1(r.e, r.f, r.g, r.h, k, w), Temp2(r.a, r.b, r.c);
    TempsMeet(r.a, r.b, r.c, r.e, r.f, r.g, r.h, k, w);
    PlusIsSum(t1, t2);
    PlusIsSum(r.d, t1);
  }

  lemma IsRoundExtends(a: seq<bv32>, e: seq<bv32>, k: seq<bv32>, w: seq<bv32>, t: nat, x: bv32, y: bv32)
    requires t < |w| == |k| && t + 5 <= |a| && t + 5 <= |e| && IsRound(a, e, k, w, t)
    ensures IsRound(a + [x], e + [y], k, w, t)
  {
    hide RoundEquations;
  }

  lemma LastRoundMeets(r: Regs, a: seq<bv32>, e: seq<bv32>, k: seq<bv32>, w: seq<bv32>, n: nat)
    requires n < |w| == |k| && |a| == |e| == n + 4 && InRegs(r, a, e, n)
    ensures var s := Round(r, k[n], w[n]);
      IsRound(a + [s.a], e + [s.e], k, w, n) && InRegs(s, a + [s.a], e + [s.e], n + 1)
  {
    hide Round, RoundEquations;
    RoundMeets(r, k[n], w[n]);
  }

  lemma WorkedExtends(a: seq<bv32>, e: seq<bv32>, h: Hash, k: seq<bv32>, w: seq<bv32>, n: nat, x: bv32, y: bv32)
    requires n < |w| == |k| && Worked(a, e, h, k, w, n) && IsRound(a + [x], e + [y], k, w, n)
    ensures Worked(a + [x], e + [y], h, k, w, n + 1)
  {
    hide IsRound;
    var a', e' := a + [x], e + [y];
    assert a'[..4] == a[..4] && e'[..4] == e[..4];
    forall t: nat | t < n
      ensures IsRound(a', e', k, w, t)
    {
      IsRoundExtends(a, e, k, w, t, x, y);
    }
  }

  lemma NextRoundMeets(a: seq<bv32>, e: seq<bv32>, h: Hash, k: seq<bv32>, w: seq<bv32>, n: nat, m: nat)
    requires n + 1 == m <= |w| == |k| && WorkedTo(a, e, h, k, w, n)
    ensures exists x, y :: WorkedTo(x, y, h, k, w, m)
  {
    var r := Rounds(Start(h), k, w, m);
    assert |a| == |e| == n + 4;
    hide Round, IsRound, InRegs, Worked, Start;
    LastRoundMeets(Rounds(Start(h), k, w, n), a, e, k, w, n);
    WorkedExtends(a, e, h, k, w, n, r.a, r.e);
    assert WorkedTo(a + [r.a], e + [r.e], h, k, w, m);
  }

  lemma AddRegsMeets(h: Hash, r: Regs, a: seq<bv32>, e: seq<bv32>)
    requires |a| == |e| == 68 && InRegs(r, a, e, 64)
    ensures Added(AddRegs(h, r), h, a, e)
  {
    hide Plus, IsSum;
    PlusIsSum(h[0], r.a);
    PlusIsSum(h[1], r.b);
    PlusIsSum(h[2], r.c);
    PlusIsSum(h[3], r.d);
    PlusIsSum(h[4], r.e);
    PlusIsSum(h[5], r.f);
    PlusIsSum(h[6], r.g);
    PlusIsSum(h[7], r.h);
  }

  /** The compression function meets the standard. */
  lemma CompressMeets(h: Hash, block: Chunk)
    ensures HashStep(h, block, Compress(h, block))
  {
    hide Schedule, Rounds, Scheduled, InRegs, Added, AddRegs;
    var w := Schedule(block, 64);
    ScheduleMeets(block);
    RoundsMeet(h, K, w, 64);
    var a, e :| WorkedTo(a, e, h, K, w, 64);
    assert |a| == |e| == 68;
    AddRegsMeets(h, Rounds(Start(h), K, w, 64), a, e);
    assert StepBy(h, block, Compress(h, block), w, a, e);
  }

  /** The padded message of section 5.1.1: a bit 1, as few zeros as possible, and the length
      of the message in bits. */
  ghost predicate IsPadded(msg: seq<byte>, p: seq<byte>) {
    && |p| % 64 == 0 && |msg| + 9 <= |p| < |msg| + 73
    && p[..|msg|] == msg && p[|msg|] == 0x80
    && (forall i :: |msg| < i < |p| - 8 ==> p[i] == 0)
    && BigEndian(p[|p| - 8..]) == (8 * |msg|) % 0x1_0000_0000_0000_0000
  }

  lemma SnocBigEndian(s: seq<byte>, b: byte)
    ensures BigEndian(s + [b]) == BigEndian(s) * 256 + b
  {
    assert (s + [b])[..|s|] == s;
  }

  /** One more byte of a number. */
  lemma NextDigit(s: seq<byte>, v: nat, b: nat)
    requires BigEndian(s) == v / 256 && b == v % 256
    ensures BigEndian(s + [b]) == v
  {
    SnocBigEndian(s, b);
  }

  lemma LengthIsBigEndian(v: nat)
    requires v < 0x1_0000_0000_0000_0000
    ensures BigEndian(LengthBytes(v)) == v
  {
    hide BigEndian;
    var s := LengthBytes(v);
    EmptyNumber();
    Divisions(v);
    NextDigit([], v / 0x100_0000_0000_0000, s[0]);
    assert [] + [s[0]] == s[..1];
    NextDigit(s[..1], v / 0x1_0000_0000_0000, s[1]);
    assert s[..1] + [s[1]] == s[..2];
    NextDigit(s[..2], v / 0x100_0000_0000, s[2]);
    assert s[..2] + [s[2]] == s[..3];
    NextDigit(s[..3], v / 0x1_0000_0000, s[3]);
    assert s[..3] + [s[3]] == s[..4];
    NextDigit(s[..4], v / 0x100_0000, s[4]);
    assert s[..4] + [s[4]] == s[..5];
    NextDigit(s[..5], v / 0x1_0000, s[5]);
    assert s[..5] + [s[5]] == s[..6];
    NextDigit(s[..6], v / 256, s[6]);
    assert s[..6] + [s[6]] == s[..7];
    NextDigit(s[..7], v, s[7]);
    assert s[..7] + [s[7]] == s;
  }

  lemma EmptyNumber()
    ensures BigEndian([]) == 0
  {
  }

  lemma Divisions(v: nat)
    requires v < 0x1_0000_0000_0000_0000
    ensures v / 0x100_0000_0000_0000 / 256 == 0
    ensures v / 0x1_0000_0000_0000 / 256 == v / 0x100_0000_0000_0000
    ensures v / 0x100_0000_0000 / 256 == v / 0x1_0000_0000_0000
    ensures v / 0x1_0000_0000 / 256 == v / 0x100_0000_0000
    ensures v / 0x100_0000 / 256 == v / 0x1_0000_0000
    ensures v / 0x1_0000 / 256 == v / 0x100_0000
    ensures v / 256 / 256 == v / 0x1_0000
  {
  }

  /** The padding meets the standard. */
  lemma PadMeets(msg: seq<byte>)
    ensures IsPadded(msg, Pad(msg))
  {
    hide LengthBytes, BigEndian;
    var p, v := Pad(msg), (8 * |msg|) % 0x1_0000_0000_0000_0000;
    LengthIsBigEndian(v);
    assert p[|p| - 8..] == LengthBytes(v);
    assert p[..|msg|] == msg;
  }

  /** The hash values before, between and after the blocks of `p`. */
  ghost predicate Chained(hs: seq<Hash>, h: Hash, p: seq<byte>)
    requires |p| % 64 == 0
  {
    && |hs| == |p| / 64 + 1 && hs[0] == h
    && (forall i: nat :: i < |p| / 64 ==> HashStep(hs[i], p[64 * i..64 * i + 64], hs[i + 1]))
  }

  /** The digest of section 6.2: the last hash value, in bytes. */
  ghost predicate IsDigestBy(msg: seq<byte>, d: seq<byte>, p: seq<byte>, hs: seq<Hash>) {
    && IsPadded(msg, p) && Chained(hs, IV, p) && |d| == 32
    && (forall i: nat :: i < 8 ==> IsWord(hs[|p| / 64][i], d[4 * i..4 * i + 4]))
  }

  ghost predicate IsDigest(msg: seq<byte>, d: seq<byte>) {
    exists p, hs :: IsDigestBy(msg, d, p, hs)
  }

  ghost predicate FoldedBy(hs: seq<Hash>, h: Hash, p: seq<byte>)
    requires |p| % 64 == 0
  {
    Chained(hs, h, p) && hs[|p| / 64] == Fold(h, p)
  }

  lemma {:induction false} FoldMeets(h: Hash, p: seq<byte>)
    requires |p| % 64 == 0
    ensures exists hs :: FoldedBy(hs, h, p)
    decreases |p|
  {
    if |p| == 0 {
      assert FoldedBy([h], h, p);
    } else {
      FoldMeets(Compress(h, p[..64]), p[64..]);
      var hs :| FoldedBy(hs, Compress(h, p[..64]), p[64..]);
      FoldMeetsNext(h, p, hs);
    }
  }

  lemma FoldMeetsNext(h: Hash, p: seq<byte>, hs: seq<Hash>)
    requires |p| % 64 == 0 && |p| > 0 && FoldedBy(hs, Compress(h, p[..64]), p[64..])
    ensures FoldedBy([h] + hs, h, p)
  {
    hide Compress, HashStep;
    var all, q := [h] + hs, p[64..];
    CompressMeets(h, p[..64]);
    forall i: nat | i < |p| / 64
      ensures HashStep(all[i], p[64 * i..64 * i + 64], all[i + 1])
    {
      if i > 0 {
        assert q[64 * (i - 1)..64 * (i - 1) + 64] == p[64 * i..64 * i + 64];
        assert all[i] == hs[i - 1] && all[i + 1] == hs[i];
      }
    }
  }

  lemma FirstAndRest(a: seq<byte>, rest: seq<byte>, i: nat)
    requires |a| == 4 && 4 * i + 8 <= 4 + |rest|
    ensures (a + rest)[0..4] == a && (a + rest)[4 * (i + 1)..4 * (i + 1) + 4] == rest[4 * i..4 * i + 4]
  {
  }

  lemma {:induction false} WordsAt(h: Hash, k: nat, i: nat)
    requires k + i < 8
    ensures Words(h, k)[4 * i..4 * i + 4] == WordBytes(h[k + i])
    decreases i
  {
    hide WordBytes;
    if i == 0 {
      FirstAndRest(WordBytes(h[k]), Words(h, k + 1) + [0, 0, 0, 0], 0);
    } else {
      WordsAt(h, k + 1, i - 1);
      FirstAndRest(WordBytes(h[k]), Words(h, k + 1), i - 1);
    }
  }

  lemma OutputMeets(h: Hash)
    ensures forall i: nat :: i < 8 ==> IsWord(h[i], Output(h)[4 * i..4 * i + 4])
  {
    hide WordBytes, IsWord, Words;
    forall i: nat | i < 8
      ensures IsWord(h[i], Output(h)[4 * i..4 * i + 4])
    {
      WordBytesIsWord(h[i]);
      WordsAt(h, 0, i);
    }
  }

  /** Every digest meets the standard. */
  lemma DigestMeets(msg: seq<byte>)
    ensures IsDigest(msg, Digest(msg))
  {
    hide Pad, Fold, Output, IsWord, Chained;
    var p := Pad(msg);
    PadMeets(msg);
    FoldMeets(IV, p);
    var hs :| FoldedBy(hs, IV, p);
    OutputMeets(Fold(IV, p));
    assert IsDigestBy(msg, Digest(msg), p, hs);
  }

  /** `y` is `x` with every byte combined with `pad`, bit by bit. */
  ghost predicate IsXor(y: seq<byte>, x: seq<byte>, pad: byte) {
    |y| == |x| && forall i: nat, k: nat :: i < |x| && k < 8 ==> NatBit(y[i], k) == (NatBit(x[i], k) != NatBit(pad, k))
  }

  /** Section 2 of RFC 2104, with the key filled up to a block of 64 bytes. */
  ghost predicate IsHmacBy(key: seq<byte>, text: seq<byte>, mac: seq<byte>, block: seq<byte>,
                           ipad: seq<byte>, opad: seq<byte>, inner: seq<byte>) {
    && |block| == 64 && (forall i :: |key| <= i < 64 ==> block[i] == 0)
    && (if |key| <= 64 then key <= block else IsDigest(key, block[..32]) && forall i :: 32 <= i < 64 ==> block[i] == 0)
    && IsXor(ipad, block, 0x36) && IsXor(opad, block, 0x5c)
    && IsDigest(ipad + text, inner) && IsDigest(opad + inner, mac)
  }

  ghost predicate IsHmac(key: seq<byte>, text: seq<byte>, mac: seq<byte>) {
    exists block, ipad, opad, inner :: IsHmacBy(key, text, mac, block, ipad, opad, inner)
  }

  lemma PaddedMeets(key: seq<byte>, pad: byte)
    ensures IsXor(Padded(key, pad), key, pad)
  {
    hide XorByte, NatBit;
    forall i: nat, k: nat | i < |key| && k < 8
      ensures NatBit(Padded(key, pad)[i], k) == (NatBit(key[i], k) != NatBit(pad, k))
    {
      XorByteBit(key[i], pad, k);
    }
  }

  /** Every authentication code meets the standard. */
  lemma HmacMeets(key: seq<byte>, text: seq<byte>)
    ensures IsHmac(key, text, Hmac(key, text))
  {
    hide Digest, IsDigest, Padded, IsXor;
    var block := HmacKey(key);
    var ipad, opad := Padded(block, 0x36), Padded(block, 0x5c);
    var inner := Digest(ipad + text);
    DigestMeets(key);
    PaddedMeets(block, 0x36);
    PaddedMeets(block, 0x5c);
    DigestMeets(ipad + text);
    DigestMeets(opad + inner);
    if |key| > 64 {
      assert block[..32] == Digest(key);
    }
    assert IsHmacBy(key, text, Hmac(key, text), block, ipad, opad, inner);
  }
}
