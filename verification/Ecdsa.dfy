/** ECDSA signing with a given ephemeral scalar. */
module Ecdsa {
  import opened Arith
  import opened Bytes
  import opened Words
  import opened Vli
  import opened VliMult
  import opened VliInv
  import opened PrimeField
  import opened FieldWords
  import opened Ladder
  import opened EccPoint
  import opened EccRounds
  import opened ScalarBits
  import opened Regularize
  import opened Bits2Int

  /** x = 1 / (k b), times b, is 1 / k. */
  lemma UnblindedInverse(k: int, b: int, n: nat, x: int, inv: int, r: int)
    requires IsPrime(n) && x == (k * b) % n && Cong(inv * x, 1, n) && r == (inv * b) % n
    ensures Cong(r * k, 1, n)
  {
    CongMod(k * b, n);
    CongMod(inv * b, n);
    CongMul(r, inv * b, k, k, n);
    CongMul(inv, inv, x, k * b, n);
    assert (inv * b) * k == inv * (k * b);
  }

  /** Lines 1303-1305: k becomes 1 / k whatever the blinding number is. */
  method BlindedInverse(k: array<Word>, blind: array<Word>, order: array<Word>, n: nat)
    requires 1 <= n <= k.Length && n <= blind.Length && n <= order.Length && n <= 0x1_0000_0000
    requires k != blind && k != order && order[n - 1] != 0
    requires IsPrime(Num(order, n)) && Num(order, n) % 2 == 1
    requires 0 < Num(k, n) < Num(order, n) && 0 < Num(blind, n) < Num(order, n)
    modifies k
    ensures IsPrime(Num(order, n)) && Cong(Num(k, n) * old(Num(k, n)), 1, Num(order, n))
  {
    ghost var v, b, m := Num(k, n), Num(blind, n), Num(order, n);
    BlindedNonzero(v, b, m);
    ModMult(k, k, blind, order, n);
    ghost var x := Num(k, n);
    ghost var g := ModInv(k, k, order, n);
    ghost var inv := Num(k, n);
    GcdWithPrime(g, x, m);
    ModMult(k, k, blind, order, n);
    UnblindedInverse(v, b, m, x, inv, Num(k, n));
  }

  lemma BlindedNonzero(k: int, b: int, n: nat)
    requires IsPrime(n) && 0 < k < n && 0 < b < n
    ensures 0 < (k * b) % n < n && !Cong((k * b) % n, 0, n)
  {
    DivModUnique(0, n, 0, 0);
    DivModUnique(k, n, 0, k);
    DivModUnique(b, n, 0, b);
    NonzeroProduct(k, b, n);
    CongMod(k * b, n);
  }

  /** Lines 1317-1318: s = r, on all the words of the order. */
  method WidenR(s: array<Word>, r: array<Word>, words: nat, n: nat)
    requires 1 <= n <= s.Length && words <= r.Length && words <= n <= words + 1 && s != r
    modifies s
    ensures Num(s, n) == Num(r, words)
  {
    s[n - 1] := 0;
    Set(s, r, words);
    if words < n {
      assert s[..n] == s[..words] + s[words..][..1];
      assert s[words] == s[words..][0];
      ValDropZeros(s[..n], words);
      assert s[..n][..words] == s[..words];
    }
  }

  /** The equation of section 4.1.3 of SEC 1 version 2.0. */
  ghost predicate Signs(s: int, k: int, e: int, r: int, d: int, n: int)
    requires 0 < n
  {
    0 <= s < n && Cong(s * k, e + r * d, n)
  }

  lemma SignatureEquation(n: nat, d: int, r: int, e: int, t: int, u: int, inv: int, k: int, s: int)
    requires 0 < n && t == (d * r) % n && u == AddOnce(e, t, n) && s == (u * inv) % n
    requires Cong(inv * k, 1, n)
    ensures Signs(s, k, e, r, d, n)
  {
    CongMod(d * r, n);
    AddOnceIsMod(e, t, n);
    CongAdd(e, e, t, d * r, n);
    CongMod(u * inv, n);
    CongMul(s, u * inv, k, k, n);
    assert (u * inv) * k == u * (inv * k);
    CongMul(u, e + r * d, inv * k, 1, n);
  }

  /** What is signed is the number in the leftmost bits of the hash. */
  lemma SignsTheHash(s: int, k: int, hash: seq<byte>, nBits: nat, r: int, d: int, n: nat)
    requires 0 < n && Signs(s, k, HashInt(hash, nBits, n), r, d, n)
    ensures Signs(s, k, MessageNumber(hash, nBits), r, d, n)
  {
    hide HashInt, MessageNumber;
    HashIntIsHash(hash, nBits, n);
    CongAdd(HashInt(hash, nBits, n), MessageNumber(hash, nBits), r * d, r * d, n);
  }

  lemma SumFits(e: nat, t: nat, n: nat, nBits: nat, words: nat)
    requires e < Pow2(nBits) && t < n && nBits <= 32 * words
    ensures e + t < P(words) + n
  {
    Pow2Mono(nBits, 32 * words);
    WeightIsPow2(words);
  }

  /** Lines 1311-1323: s = (e + r d) / k, with 1 / k in `kInv`. */
  method ComputeS(s: array<Word>, tmp: array<Word>, privateKey: seq<byte>, hash: seq<byte>, r: array<Word>,
                  kInv: array<Word>, order: array<Word>, words: nat, n: nat, nBits: nat, ghost k: int)
    requires s != tmp && s != r && s != kInv && s != order && tmp != r && tmp != kInv && tmp != order
    requires 1 <= n == (nBits + 31) / 32 <= 0x1_0000_0000 && words <= n <= words + 1
    requires n <= s.Length && n <= tmp.Length && words <= r.Length && n <= kInv.Length && n <= order.Length
    requires |privateKey| == (nBits + 7) / 8 && order[n - 1] != 0
    requires Num(order, n) > 0 && Cong(Num(kInv, n) * k, 1, Num(order, n))
    modifies s, tmp
    ensures Num(order, n) > 0
    ensures Signs(Num(s, n), k, MessageNumber(hash, nBits), Num(r, words), BigEndian(privateKey), Num(order, n))
  {
    ghost var m, d, x, inv := Num(order, n), BigEndian(privateKey), Num(r, words), Num(kInv, n);
    BytesToNative(tmp, privateKey, |privateKey|);
    assert privateKey[..|privateKey|] == privateKey;
    WidenR(s, r, words, n);
    ModMult(s, tmp, s, order, n);
    ghost var t := Num(s, n);
    Bits2int(tmp, hash, order, nBits, n);
    ghost var e := Num(tmp, n);
    HashIntBound(hash, nBits, m);
    SumFits(e, t, m, nBits, n);
    ModAdd(s, tmp, s, order, n);
    ghost var u := Num(s, n);
    ModMult(s, s, kInv, order, n);
    SignatureEquation(m, d, x, e, t, u, inv, k, Num(s, n));
    SignsTheHash(Num(s, n), k, hash, nBits, x, d, m);
  }

  /** Byte `b` of a number, counted from the least significant. */
  function ByteOf(v: nat, b: nat): (r: byte) {
    Quotient(v, Pow2(8 * b)) % 256
  }

  function ByteOfWord(w: Word, r: nat): byte
    requires r < 4
  {
    Quotient(w, ByteUnit(r)) % 256
  }

  lemma LowWordByte(w: Word, high: nat, r: nat)
    requires r < 4
    ensures Quotient(w + 0x1_0000_0000 * high, ByteUnit(r)) % 256 == ByteOfWord(w, r)
  {
    var c := if r == 0 then 0x100_0000 else if r == 1 then 0x1_0000 else if r == 2 then 0x100 else 1;
    LowByte(w, high, ByteUnit(r), c);
  }

  lemma LowByte(w: nat, high: nat, u: nat, c: nat)
    requires 0 < u && u * (c * 256) == 0x1_0000_0000
    ensures Quotient(w + 0x1_0000_0000 * high, u) % 256 == Quotient(w, u) % 256
  {
    hide Quotient;
    var q := Quotient(w, u);
    var r := QuotientSpec(w, u);
    MulAssoc(u, c * 256, high);
    MulDistrib(q, (c * 256) * high, u);
    QuotientUnique(w + 0x1_0000_0000 * high, u, q + (c * 256) * high, r);
    MulAssoc(c, 256, high);
    ModAddMultiple(q, c * high, 256);
  }

  lemma ByteIsInWord(s: seq<Word>, b: nat)
    requires WordOf(b) < |s|
    ensures ByteOf(Val(s), b) == ByteOfWord(s[WordOf(b)], b % 4)
  {
    var q, r := WordOf(b), b % 4;
    ByteWeight(b);
    WeightIsPow2(q);
    ShiftByWords(s, q);
    QuotientOfQuotient(Val(s), P(q), ByteUnit(r));
    LowWordByte(s[q], Val(s[q..][1..]), r);
  }

  lemma LeadingBytes(v: nat, b: nat)
    ensures Quotient(v, Pow2(8 * b)) == Quotient(v, Pow2(8 * (b + 1))) * 256 + ByteOf(v, b)
  {
    hide Quotient;
    Pow2Add(8, 8 * b);
    assert Pow2(8) == 256;
    QuotientOfQuotient(v, Pow2(8 * b), 256);
    LastDigit(Quotient(v, Pow2(8 * b)));
  }

  lemma LastDigit(v: nat)
    ensures v == Quotient(v, 256) * 256 + v % 256
  {
  }

  /** The first bytes written. */
  ghost predicate Written(s: seq<byte>, v: nat, left: nat) {
    BigEndian(s) == Quotient(v, Pow2(8 * left))
  }

  lemma WriteNext(s: seq<byte>, v: nat, left: nat, x: byte)
    requires 1 <= left && Written(s, v, left) && x == ByteOf(v, left - 1)
    ensures Written(s + [x], v, left - 1)
  {
    LeadingBytes(v, left - 1);
    assert (s + [x])[..|s|] == s;
  }

  lemma WrittenEnds(s: seq<byte>, v: nat)
    ensures Written(s, v, 0) == (BigEndian(s) == v)
  {
    assert Pow2(0) == 1;
  }

  lemma WrittenStarts(v: nat, n: nat)
    requires v < Pow2(8 * n)
    ensures Written([], v, n)
  {
    QuotientUnique(v, Pow2(8 * n), 0, v);
  }

  /** Lines 1005-1006. */
  method WriteByte(bytes: array<byte>, at: nat, i: nat, numBytes: nat, native: array<Word>, n: nat)
    requires i < numBytes && at + numBytes <= bytes.Length && (numBytes + 3) / 4 <= n <= native.Length
    requires Written(bytes[at..at + i], Num(native, n), numBytes - i)
    modifies bytes
    ensures Written(bytes[at..at + i + 1], Num(native, n), numBytes - i - 1)
    ensures forall j :: 0 <= j < bytes.Length && j != at + i ==> bytes[j] == old(bytes[j])
  {
    var b := numBytes - 1 - i;
    ghost var done := bytes[at..at + i];
    ByteIsInWord(native[..n], b);
    bytes[at + i] := ByteOfWord(native[WordOf(b)], b % 4);
    assert bytes[at..at + i + 1] == done + [bytes[at + i]];
    WriteNext(done, Num(native, n), numBytes - i, bytes[at + i]);
  }

  /** Words to big-endian bytes, lines 1000-1008: the number, if it fits the bytes. */
  method NativeToBytes(bytes: array<byte>, at: nat, numBytes: nat, native: array<Word>, n: nat)
    requires at + numBytes <= bytes.Length && (numBytes + 3) / 4 <= n <= native.Length
    requires Num(native, n) < Pow2(8 * numBytes)
    modifies bytes
    ensures BigEndian(bytes[at..at + numBytes]) == Num(native, n)
    ensures bytes[..at] == old(bytes[..at]) && bytes[at + numBytes..] == old(bytes[at + numBytes..])
  {
    ghost var s := native[..n];
    WrittenStarts(Val(s), numBytes);
    assert bytes[at..at] == [];
    for i := 0 to numBytes
      invariant bytes[..at] == old(bytes[..at]) && bytes[at + numBytes..] == old(bytes[at + numBytes..])
      invariant Written(bytes[at..at + i], Val(s), numBytes - i)
    {
      WriteByte(bytes, at, i, numBytes, native, n);
    }
    WrittenEnds(bytes[at..at + numBytes], Val(s));
  }

  /** Lines 1273-1276: 0 < k < n, on the words the code looks at. */
  method InRange(k: array<Word>, order: array<Word>, words: nat, n: nat) returns (ok: bool)
    requires words <= n <= k.Length && n <= order.Length
    ensures ok == (Num(k, words) != 0 && Num(k, n) < Num(order, n))
    ensures ok ==> 0 < Num(k, n)
  {
    var zero := IsZero(k, words);
    var c := Cmp(order, k, n);
    ok := !zero && c == 1;
    ValSplit(k[..n], words);
    assert k[..n][..words] == k[..words];
    MulMono(0, Val(k[..n][words..]), P(words));
  }

  /** Every k for which the code refuses to sign: out of range, unlucky for the ladder, or
      giving r = 0. */
  ghost predicate Refused(m: Multiples, kLow: nat, k: nat, nBits: nat, px: int, py: int)
    requires 0 < m.p
  {
    || kLow == 0 || m.order <= k || Unlucky(k, m.order, nBits)
    || Cong(px, 0, m.p) || Cong(py, 0, m.p) || Cong(m.x(k), 0, m.p)
  }

  /** No scalar between 2 and n - 3 is refused, unless its multiple lies above x = 0. */
  lemma UsualScalarsAccepted(m: Multiples, kLow: nat, k: nat, nBits: nat, px: int, py: int)
    requires 0 < m.p && kLow != 0 && 2 <= k && k + 3 <= m.order
    requires !Cong(px, 0, m.p) && !Cong(py, 0, m.p) && !Cong(m.x(k), 0, m.p)
    ensures !Refused(m, kLow, k, nBits, px, py)
  {
  }

  /** `sig` is r and s, each as `numBytes` big-endian bytes. */
  ghost predicate SignatureOf(sig: seq<byte>, numBytes: nat, r: nat, s: nat) {
    |sig| == 2 * numBytes && BigEndian(sig[..numBytes]) == r && BigEndian(sig[numBytes..]) == s
  }

  /** The parameters that go with one curve: the order as words, and the sizes. */
  ghost predicate CurveSizes(order: nat, p: nat, words: nat, n: nat, nBits: nat, numBytes: nat) {
    && 1 <= n == (nBits + 31) / 32 <= 0x1_0000_0000 && HasBits(order, nBits)
    && words == (numBytes + 3) / 4 && words <= n <= words + 1
    && IsPrime(order) && order % 2 == 1 && 5 <= order && p <= Pow2(8 * numBytes)
  }

  lemma TopWordSet(s: seq<Word>, nBits: nat)
    requires 1 <= |s| == (nBits + 31) / 32 && HasBits(Val(s), nBits)
    ensures s[|s| - 1] != 0
  {
    var k := |s| - 1;
    if s[k] == 0 {
      ValTop(s);
      ValBound(s[..k]);
      WeightIsPow2(k);
      Pow2Mono(32 * k, nBits - 1);
    }
  }

  /** Lines 1297-1331, once r is known. */
  method FinishSignature(signature: array<byte>, r: array<Word>, k: array<Word>, blind: array<Word>, order: array<Word>,
                         privateKey: seq<byte>, hash: seq<byte>, words: nat, n: nat, nBits: nat, numBytes: nat,
                         ghost p: nat)
      returns (ok: bool, ghost s: nat)
    requires n <= order.Length && n <= k.Length && n <= blind.Length && words <= r.Length
    requires k != order && k != blind && k != r && signature.Length == 2 * numBytes
    requires CurveSizes(Num(order, n), p, words, n, nBits, numBytes) && |privateKey| == (nBits + 7) / 8
    requires 0 < Num(k, n) < Num(order, n) && 0 < Num(blind, n) < Num(order, n) && Num(r, words) < p
    modifies k, signature
    ensures Num(order, n) > 0
    ensures Signs(s, old(Num(k, n)), MessageNumber(hash, nBits), Num(r, words), BigEndian(privateKey), Num(order, n))
    ensures ok == (s < Pow2(8 * numBytes))
    ensures ok ==> SignatureOf(signature[..], numBytes, Num(r, words), s)
  {
    ghost var v := Num(k, n);
    TopWordSet(order[..n], nBits);
    BlindedInverse(k, blind, order, n);
    NativeToBytes(signature, 0, numBytes, r, words);
    var tmp, sv := new Word[n], new Word[n];
    ComputeS(sv, tmp, privateKey, hash, r, k, order, words, n, nBits, v);
    s := Num(sv, n);
    var bits := NumBits(sv, n);
    FitsBits(s, bits, 8 * numBytes);
    if bits > numBytes * 8 {
      return false, s;
    }
    ghost var first := signature[..numBytes];
    assert signature[0..0 + numBytes] == first;
    NativeToBytes(signature, numBytes, numBytes, sv, n);
    assert signature[..][..numBytes] == first && signature[..][numBytes..] == signature[numBytes..numBytes + numBytes];
    ok := true;
  }

  lemma FitsBits(v: nat, bits: nat, e: nat)
    requires HasBits(v, bits)
    ensures v < Pow2(e) <==> bits <= e
  {
    if bits <= e {
      Pow2Mono(bits, e);
    } else {
      Pow2Mono(e, bits - 1);
    }
  }

  /** The whole of uECC_sign_with_k_internal: `k` is the ephemeral scalar, `blind` the
      random number that hides it. */
  method SignWithK(ghost m: Multiples, mod: array<Word>, px: array<Word>, py: array<Word>, initialZ: array?<Word>,
                   dbl: (nat, nat, nat) -> (nat, nat, nat),
                   privateKey: seq<byte>, hash: seq<byte>, k: array<Word>, blind: array<Word>, order: array<Word>,
                   words: nat, n: nat, nBits: nat, numBytes: nat, signature: array<byte>)
      returns (ok: bool, ghost r: nat, ghost s: nat)
    requires Point(m, px, py, mod, words) && Doubles(m, dbl) && Blinding(initialZ, mod, words)
    requires n <= order.Length && n <= k.Length && n <= blind.Length && words <= n
    requires k != order && k != blind && signature.Length == 2 * numBytes
    requires Num(order, n) == m.order && CurveSizes(m.order, m.p, words, n, nBits, numBytes)
    requires |privateKey| == (nBits + 7) / 8 && 0 < Num(blind, n) < m.order
    modifies k, signature
    ensures m.Valid() && var v := old(Num(k, n));
      var refused := Refused(m, old(Num(k, words)), v, nBits, old(Num(px, words)), old(Num(py, words)));
      && ok == (!refused && s < Pow2(8 * numBytes))
      && (!refused ==> 0 < r < m.p && Cong(r, m.x(v), m.p)
                       && Signs(s, v, MessageNumber(hash, nBits), r, BigEndian(privateKey), m.order))
    ensures ok ==> SignatureOf(signature[..], numBytes, r, s)
  {
    hide Modulus, Num, Unlucky, Doubles, Signs, SignatureOf;
    ok, r, s := false, 0, 0;
    var valid := InRange(k, order, words, n);
    if !valid {
      return;
    }
    var rx, ry := new Word[words], new Word[words];
    ComputePoint(m, mod, words, rx, ry, px, py, k, order, n, nBits, initialZ, dbl);
    r := Num(rx, words);
    RIsZero(m, Num(k, n), nBits, Num(px, words), Num(py, words), r, Num(ry, words));
    var zero := IsZero(rx, words);
    if zero {
      return;
    }
    ok, s := FinishSignature(signature, rx, k, blind, order, privateKey, hash, words, n, nBits, numBytes, m.p);
  }

  /** r is zero exactly if the multiple was not found, or lies above x = 0. */
  lemma RIsZero(m: Multiples, k: nat, nBits: nat, px: int, py: int, rx: nat, ry: nat)
    requires 0 < m.p && rx < m.p && IsMultiple(m, k, nBits, px, py, rx, ry)
    ensures rx == 0 <==> Unlucky(k, m.order, nBits) || Cong(px, 0, m.p) || Cong(py, 0, m.p) || Cong(m.x(k), 0, m.p)
    ensures rx != 0 ==> Cong(rx, m.x(k), m.p)
  {
    DivModUnique(0, m.p, 0, 0);
    DivModUnique(rx, m.p, 0, rx);
  }

  /** Why a signature verifies: with w = 1 / s, the verifier's point (w e) P + (w r) d P is
      the signer's k P, so its x coordinate is r. */
  lemma VerifierFindsR(m: Multiples, s: int, k: nat, e: int, r: int, d: int, w: int)
    requires m.Valid() && 0 < k < m.order && Cong(r, m.x(k), m.p)
    requires Signs(s, k, e, r, d, m.order) && Cong(w * s, 1, m.order)
    ensures m.Finite(w * e + (w * r) * d) && Cong(m.x(w * e + (w * r) * d), r, m.p)
  {
    var j := w * e + (w * r) * d;
    CongMul(w, w, s * k, e + r * d, m.order);
    assert w * (e + r * d) == j by {
      MulDistrib(e, r * d, w);
      MulAssoc(w, r, d);
    }
    assert w * (s * k) == (w * s) * k;
    CongMul(w * s, 1, k, k, m.order);
    assert Cong(k, j, m.order);
    CongSub(k, j, j, j, m.order);
    DivModUnique(k, m.order, 0, k);
    assert m.SamePoint(k, j);
  }
}
