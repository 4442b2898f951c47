/** The equations of FIPS 180-4 and RFC 2104 leave no choice: what meets them is what Sha256
    computes. */
module Sha256Unique {
  import opened Bytes
  import opened Sha256
  import opened Sha256Bits
  import opened Sha256Bytes
  import opened Fips180

  lemma HalvesDecide(x: bv32, y: bv32)
    requires Half(x) == Half(y) && Low(x) == Low(y)
    ensures x == y
  {
  }

  lemma {:induction false} AgreeingWords(x: bv32, y: bv32, k: nat)
    requires Agree(x, y, k) && Fits(x, k) && Fits(y, k)
    ensures x == y
    decreases k
  {
    hide Low, Half;
    if k > 0 {
      AgreeingWords(Half(x), Half(y), k - 1);
      HalvesDecide(x, y);
    }
  }

  lemma {:induction false} SameBitsAgree(x: bv32, y: bv32, k: nat)
    requires forall i: nat :: i < k ==> Bit(x, i) == Bit(y, i)
    ensures Agree(x, y, k)
    decreases k
  {
    hide Low, Half;
    if k > 0 {
      assert Bit(x, 0) == Bit(y, 0);
      forall i: nat | i < k - 1
        ensures Bit(Half(x), i) == Bit(Half(y), i)
      {
        assert Bit(x, i + 1) == Bit(y, i + 1);
      }
      SameBitsAgree(Half(x), Half(y), k - 1);
    }
  }

  lemma WordByteBit(x: bv32, s: seq<byte>, i: nat)
    requires IsWord(x, s) && i < 32
    ensures Bit(x, i) == NatBit(s[3 - i / 8], i % 8)
  {
    hide Bit, NatBit;
    var k := i % 8;
    assert i == 8 * (i / 8) + k;
    if i / 8 == 0 {
    } else if i / 8 == 1 {
    } else if i / 8 == 2 {
    } else {
    }
  }

  lemma WordUnique(x: bv32, y: bv32, s: seq<byte>)
    requires IsWord(x, s) && IsWord(y, s)
    ensures x == y
  {
    hide Bit, NatBit, IsWord, Agree, Fits;
    forall i: nat | i < 32
      ensures Bit(x, i) == Bit(y, i)
    {
      WordByteBit(x, s, i);
      WordByteBit(y, s, i);
    }
    SameBitsAgree(x, y, 32);
    FitsWord(x);
    FitsWord(y);
    AgreeingWords(x, y, 32);
  }

  /** Numbers with the same bits, below 2 to the number of bits. */
  lemma {:induction false} SameNumber(a: nat, b: nat, m: nat, n: nat)
    requires a < m && b < m && (n == 0 ==> m == 1) && IsPower(m, n)
    requires forall i: nat :: i < n ==> NatBit(a, i) == NatBit(b, i)
    ensures a == b
    decreases n
  {
    if n > 0 {
      assert NatBit(a, 0) == NatBit(b, 0);
      forall i: nat | i < n - 1
        ensures NatBit(a / 2, i) == NatBit(b / 2, i)
      {
        assert NatBit(a, i + 1) == NatBit(b, i + 1);
      }
      SameNumber(a / 2, b / 2, m / 2, n - 1);
    }
  }

  predicate IsPower(m: nat, n: nat) {
    if n == 0 then m == 1 else m % 2 == 0 && IsPower(m / 2, n - 1)
  }

  lemma ByteUnique(x: bv32, q: nat, a: byte, b: byte)
    requires HasByte(x, q, a) && HasByte(x, q, b)
    ensures a == b
  {
    assert IsPower(256, 8);
    hide Bit, NatBit;
    forall i: nat | i < 8
      ensures NatBit(a, i) == NatBit(b, i)
    {
      assert Bit(x, 8 * q + i) == NatBit(a, i);
    }
    SameNumber(a, b, 256, 8);
  }

  lemma BytesUnique(x: bv32, s: seq<byte>, t: seq<byte>)
    requires IsWord(x, s) && IsWord(x, t)
    ensures s == t
  {
    hide HasByte;
    ByteUnique(x, 3, s[0], t[0]);
    ByteUnique(x, 2, s[1], t[1]);
    ByteUnique(x, 1, s[2], t[2]);
    ByteUnique(x, 0, s[3], t[3]);
  }

  lemma NextWordUnique(x: bv32, y: bv32, w2: bv32, w7: bv32, w15: bv32, w16: bv32)
    requires IsNextWord(x, w2, w7, w15, w16) && IsNextWord(y, w2, w7, w15, w16)
    ensures x == y
  {
  }

  lemma {:induction false} ScheduleUnique(w: seq<bv32>, v: seq<bv32>, block: Chunk, t: nat)
    requires Scheduled(w, block) && Scheduled(v, block) && t < 64
    ensures w[t] == v[t]
  {
    hide IsWord, IsNextWord;
    assert ScheduledAt(w, block, t) && ScheduledAt(v, block, t);
    if t < 16 {
      WordUnique(w[t], v[t], block[4 * t..4 * t + 4]);
    } else {
      ScheduleUnique(w, v, block, t - 2);
      ScheduleUnique(w, v, block, t - 7);
      ScheduleUnique(w, v, block, t - 15);
      ScheduleUnique(w, v, block, t - 16);
      NextWordUnique(w[t], v[t], w[t - 2], w[t - 7], w[t - 15], w[t - 16]);
    }
  }

  lemma SumUnique(z: bv32, z': bv32, x: bv32, y: bv32)
    requires IsSum(z, x, y) && IsSum(z', x, y)
    ensures z == z'
  {
  }

  lemma T1Unique(t: bv32, t': bv32, e: bv32, f: bv32, g: bv32, h: bv32, k: bv32, w: bv32)
    requires IsT1(t, e, f, g, h, k, w) && IsT1(t', e, f, g, h, k, w)
    ensures t == t'
  {
  }

  lemma T2Unique(t: bv32, t': bv32, a: bv32, b: bv32, c: bv32)
    requires IsT2(t, a, b, c) && IsT2(t', a, b, c)
    ensures t == t'
  {
  }

  lemma RoundUnique(a: bv32, e: bv32, a': bv32, e': bv32, a1: bv32, a2: bv32, a3: bv32, a4: bv32,
                    e1: bv32, e2: bv32, e3: bv32, e4: bv32, k: bv32, w: bv32)
    requires RoundEquations(a, e, a1, a2, a3, a4, e1, e2, e3, e4, k, w)
    requires RoundEquations(a', e', a1, a2, a3, a4, e1, e2, e3, e4, k, w)
    ensures a == a' && e == e'
  {
    hide IsT1, IsT2, IsSum;
    var t1, t2 :| IsT1(t1, e1, e2, e3, e4, k, w) && IsT2(t2, a1, a2, a3) && IsSum(a, t1, t2) && IsSum(e, a4, t1);
    var u1, u2 :| IsT1(u1, e1, e2, e3, e4, k, w) && IsT2(u2, a1, a2, a3) && IsSum(a', u1, u2) && IsSum(e', a4, u1);
    T1Unique(t1, u1, e1, e2, e3, e4, k, w);
    T2Unique(t2, u2, a1, a2, a3);
    SumUnique(a, a', t1, t2);
    SumUnique(e, e', a4, t1);
  }

  lemma {:induction false} WorkedUnique(a: seq<bv32>, e: seq<bv32>, a': seq<bv32>, e': seq<bv32>, h: Hash,
                                        k: seq<bv32>, w: seq<bv32>, n: nat, t: nat)
    requires n <= |w| == |k| && Worked(a, e, h, k, w, n) && Worked(a', e', h, k, w, n) && t < n + 4
    ensures a[t] == a'[t] && e[t] == e'[t]
    decreases t
  {
    hide RoundEquations;
    if t < 4 {
      assert a[t] == a[..4][t] && a'[t] == a'[..4][t] && e[t] == e[..4][t] && e'[t] == e'[..4][t];
    } else {
      var r := t - 4;
      assert IsRound(a, e, k, w, r) && IsRound(a', e', k, w, r);
      WorkedUnique(a, e, a', e', h, k, w, n, r);
      WorkedUnique(a, e, a', e', h, k, w, n, r + 1);
      WorkedUnique(a, e, a', e', h, k, w, n, r + 2);
      WorkedUnique(a, e, a', e', h, k, w, n, r + 3);
      RoundUnique(a[t], e[t], a'[t], e'[t], a[r + 3], a[r + 2], a[r + 1], a[r],
                  e[r + 3], e[r + 2], e[r + 1], e[r], k[r], w[r]);
    }
  }

  lemma AddedUnique(x: Hash, y: Hash, h: Hash, a: seq<bv32>, e: seq<bv32>)
    requires |a| == |e| == 68 && Added(x, h, a, e) && Added(y, h, a, e)
    ensures x == y
  {
    hide IsSum;
    SumUnique(x[0], y[0], h[0], a[67]);
    SumUnique(x[1], y[1], h[1], a[66]);
    SumUnique(x[2], y[2], h[2], a[65]);
    SumUnique(x[3], y[3], h[3], a[64]);
    SumUnique(x[4], y[4], h[4], e[67]);
    SumUnique(x[5], y[5], h[5], e[66]);
    SumUnique(x[6], y[6], h[6], e[65]);
    SumUnique(x[7], y[7], h[7], e[64]);
  }

  lemma StepUnique(h: Hash, block: Chunk, x: Hash, y: Hash)
    requires HashStep(h, block, x) && HashStep(h, block, y)
    ensures x == y
  {
    hide ScheduledAt, IsRound, IsSum;
    var w, a, e :| StepBy(h, block, x, w, a, e);
    var w', a', e' :| StepBy(h, block, y, w', a', e');
    SameSchedules(w, w', block);
    SameValues(a, e, a', e', h, K, w);
    AddedUnique(x, y, h, a, e);
  }

  lemma SameSchedules(w: seq<bv32>, v: seq<bv32>, block: Chunk)
    requires Scheduled(w, block) && Scheduled(v, block)
    ensures w == v
  {
    hide ScheduledAt;
    forall t: nat | t < 64
      ensures w[t] == v[t]
    {
      ScheduleUnique(w, v, block, t);
    }
  }

  lemma SameValues(a: seq<bv32>, e: seq<bv32>, a': seq<bv32>, e': seq<bv32>, h: Hash, k: seq<bv32>, w: seq<bv32>)
    requires |w| == |k| == 64 && Worked(a, e, h, k, w, 64) && Worked(a', e', h, k, w, 64)
    ensures a == a' && e == e'
  {
    hide IsRound;
    forall t: nat | t < 68
      ensures a[t] == a'[t] && e[t] == e'[t]
    {
      WorkedUnique(a, e, a', e', h, k, w, 64, t);
    }
  }

  lemma {:induction false} NumberUnique(s: seq<byte>, t: seq<byte>)
    requires |s| == |t| && BigEndian(s) == BigEndian(t)
    ensures s == t
    decreases |s|
  {
    if |s| > 0 {
      var k := |s| - 1;
      NumberUnique(s[..k], t[..k]);
      assert s == s[..k] + [s[k]] && t == t[..k] + [t[k]];
    }
  }

  lemma PaddingUnique(msg: seq<byte>, p: seq<byte>, q: seq<byte>)
    requires IsPadded(msg, p) && IsPadded(msg, q)
    ensures p == q
  {
    hide BigEndian;
    assert |p| == |q|;
    NumberUnique(p[|p| - 8..], q[|q| - 8..]);
    assert forall i :: 0 <= i < |msg| ==> p[i] == p[..|msg|][i] && q[i] == q[..|msg|][i];
    assert forall i :: |p| - 8 <= i < |p| ==> p[i] == p[|p| - 8..][i - (|p| - 8)] && q[i] == q[|q| - 8..][i - (|q| - 8)];
  }

  lemma {:induction false} ChainUnique(hs: seq<Hash>, gs: seq<Hash>, h: Hash, p: seq<byte>, i: nat)
    requires |p| % 64 == 0 && Chained(hs, h, p) && Chained(gs, h, p) && i <= |p| / 64
    ensures hs[i] == gs[i]
  {
    hide HashStep;
    if i > 0 {
      ChainUnique(hs, gs, h, p, i - 1);
      StepUnique(hs[i - 1], p[64 * (i - 1)..64 * (i - 1) + 64], hs[i], gs[i]);
    }
  }

  /** A digest meets the standard exactly if it is the one that is computed. */
  lemma DigestExactly(msg: seq<byte>, d: seq<byte>)
    ensures IsDigest(msg, d) <==> d == Digest(msg)
  {
    hide IsDigest, Digest;
    DigestMeets(msg);
    if IsDigest(msg, d) {
      DigestUnique(msg, d, Digest(msg));
    }
  }

  lemma DigestUnique(msg: seq<byte>, c: seq<byte>, d: seq<byte>)
    requires IsDigest(msg, c) && IsDigest(msg, d)
    ensures c == d
  {
    hide BigEndian, HashStep, IsWord;
    var p, hs :| IsDigestBy(msg, c, p, hs);
    var q, gs :| IsDigestBy(msg, d, q, gs);
    PaddingUnique(msg, p, q);
    ChainUnique(hs, gs, IV, p, |p| / 64);
    forall i: nat | i < 8
      ensures c[4 * i..4 * i + 4] == d[4 * i..4 * i + 4]
    {
      BytesUnique(hs[|p| / 64][i], c[4 * i..4 * i + 4], d[4 * i..4 * i + 4]);
    }
    FoursDecide(c, d);
  }

  lemma FoursDecide(c: seq<byte>, d: seq<byte>)
    requires |c| == |d| == 32 && forall i: nat :: i < 8 ==> c[4 * i..4 * i + 4] == d[4 * i..4 * i + 4]
    ensures c == d
  {
    forall j | 0 <= j < 32
      ensures c[j] == d[j]
    {
      var i := j / 4;
      assert c[4 * i..4 * i + 4][j - 4 * i] == d[4 * i..4 * i + 4][j - 4 * i];
    }
  }

  lemma XorUnique(y: seq<byte>, z: seq<byte>, x: seq<byte>, pad: byte)
    requires IsXor(y, x, pad) && IsXor(z, x, pad)
    ensures y == z
  {
    assert IsPower(256, 8);
    hide NatBit, IsPower;
    forall i: nat | i < |x|
      ensures y[i] == z[i]
    {
      forall k: nat | k < 8
        ensures NatBit(y[i], k) == NatBit(z[i], k)
      {
        assert NatBit(y[i], k) == (NatBit(x[i], k) != NatBit(pad, k));
        assert NatBit(z[i], k) == (NatBit(x[i], k) != NatBit(pad, k));
      }
      SameNumber(y[i], z[i], 256, 8);
    }
  }

  /** An authentication code meets the standard exactly if it is the one that is computed. */
  lemma HmacExactly(key: seq<byte>, text: seq<byte>, mac: seq<byte>)
    ensures IsHmac(key, text, mac) <==> mac == Hmac(key, text)
  {
    hide Hmac, IsHmacBy;
    HmacMeets(key, text);
    if IsHmac(key, text, mac) {
      var b, i, o, d :| IsHmacBy(key, text, mac, b, i, o, d);
      var b', i', o', d' :| IsHmacBy(key, text, Hmac(key, text), b', i', o', d');
      HmacByUnique(key, text, mac, b, i, o, d, Hmac(key, text), b', i', o', d');
    }
  }

  lemma HmacByUnique(key: seq<byte>, text: seq<byte>, mac: seq<byte>, b: seq<byte>, i: seq<byte>, o: seq<byte>, d: seq<byte>,
                     mac': seq<byte>, b': seq<byte>, i': seq<byte>, o': seq<byte>, d': seq<byte>)
    requires IsHmacBy(key, text, mac, b, i, o, d) && IsHmacBy(key, text, mac', b', i', o', d')
    ensures mac == mac'
  {
    hide IsDigest, IsXor, Digest;
    if |key| <= 64 {
      assert forall j :: 0 <= j < |key| ==> b[j] == key[j] && b'[j] == key[j];
    } else {
      DigestExactly(key, b[..32]);
      DigestExactly(key, b'[..32]);
      assert forall j :: 0 <= j < 32 ==> b[j] == b[..32][j] && b'[j] == b'[..32][j];
    }
    assert b == b';
    XorUnique(i, i', b, 0x36);
    XorUnique(o, o', b, 0x5c);
    DigestExactly(i + text, d);
    DigestExactly(i + text, d');
    DigestExactly(o + d, mac);
    DigestExactly(o + d, mac');
  }
}
