/** AES-256 in CBC mode: the key schedule, whole buffers, and buffers taken sixteen bytes at
    a time. */
module AesCbc {
  import opened AesBytes
  import opened Aes
  import opened AesState

  /** {02} to the powers the key schedule of AES-256 uses. */
  const RCON: seq<bv8> := [0x8d, 0x01, 0x02, 0x04, 0x08, 0x10, 0x20, 0x40, 0x80, 0x1b, 0x36]

  type Word = s: seq<bv8> | |s| == 4 witness [0, 0, 0, 0]

  function SubWord(t: Word): Word {
    [SBox(t[0]), SBox(t[1]), SBox(t[2]), SBox(t[3])]
  }

  function RotWord(t: Word): Word {
    [t[1], t[2], t[3], t[0]]
  }

  function XorWords(s: Word, t: Word): Word {
    [Xor(s[0], t[0]), Xor(s[1], t[1]), Xor(s[2], t[2]), Xor(s[3], t[3])]
  }

  /** What word `i` adds to the word eight places before it, from the word before it. */
  function Temp(t: Word, i: nat): Word
    requires i / 8 < 11
  {
    if i % 8 == 0 then
      var u := SubWord(RotWord(t));
      [Xor(u[0], RCON[i / 8]), u[1], u[2], u[3]]
    else if i % 8 == 4 then SubWord(t)
    else t
  }

  /** The first `n` words of the key schedule, section 5.2 of FIPS 197. */
  function Expanded(key: seq<bv8>, n: nat): (r: seq<bv8>)
    requires |key| == 32 && n <= 60
    ensures |r| == 4 * n
  {
    if n <= 8 then key[..4 * n]
    else
      var w := Expanded(key, n - 1);
      w + XorWords(w[4 * n - 36..4 * n - 32], Temp(w[4 * n - 8..4 * n - 4], n - 1))
  }

  function ScheduleOf(key: seq<bv8>): Schedule
    requires |key| == 32
  {
    Expanded(key, 60)
  }

  /** The next word of the schedule, from those before it. */
  function NextWord(w: seq<bv8>, i: nat): Word
    requires 8 <= i < 60 && |w| == 4 * i
  {
    XorWords(w[4 * i - 32..4 * i - 28], Temp(w[4 * i - 4..], i))
  }

  lemma ExpandedStep(key: seq<bv8>, i: nat)
    requires |key| == 32 && 8 <= i < 60
    ensures Expanded(key, i + 1) == Expanded(key, i) + NextWord(Expanded(key, i), i)
  {
    hide XorWords, Temp;
    var w := Expanded(key, i);
    assert w[4 * (i + 1) - 8..4 * (i + 1) - 4] == w[4 * i - 4..];
  }

  method StoreWord(roundKey: array<bv8>, i: nat, word: Word)
    requires 4 * i + 4 <= roundKey.Length
    modifies roundKey
    ensures roundKey[..4 * i + 4] == old(roundKey[..4 * i]) + word
  {
    roundKey[4 * i] := word[0];
    roundKey[4 * i + 1] := word[1];
    roundKey[4 * i + 2] := word[2];
    roundKey[4 * i + 3] := word[3];
  }

  /** Lines 146-217. */
  method KeyExpansion(roundKey: array<bv8>, key: seq<bv8>)
    requires roundKey.Length == 240 && |key| == 32
    modifies roundKey
    ensures roundKey[..] == ScheduleOf(key)
  {
    hide Expanded, NextWord;
    for i := 0 to 8
      invariant roundKey[..4 * i] == key[..4 * i]
    {
      StoreWord(roundKey, i, key[4 * i..4 * i + 4]);
      assert key[..4 * i] + key[4 * i..4 * i + 4] == key[..4 * i + 4];
    }
    KeyComesFirst(key);
    for i := 8 to 60
      invariant roundKey[..4 * i] == Expanded(key, i)
    {
      ExpandedStep(key, i);
      var word := NextWord(roundKey[..4 * i], i);
      StoreWord(roundKey, i, word);
    }
    assert roundKey[..240] == roundKey[..];
  }

  lemma KeyComesFirst(key: seq<bv8>)
    requires |key| == 32
    ensures Expanded(key, 8) == key[..32]
  {
  }

  /** One block in CBC mode, section 6.2 of NIST SP 800-38A. */
  function Chained(w: Schedule, iv: Block, p: Block): Block {
    Encrypt(XorBlocks(p, iv), w)
  }

  function Unchained(w: Schedule, iv: Block, c: Block): Block {
    XorBlocks(Decrypt(c, w), iv)
  }

  lemma UnchainedInverts(w: Schedule, iv: Block, p: Block)
    ensures Unchained(w, iv, Chained(w, iv, p)) == p
  {
    hide Encrypt, Decrypt, XorBlocks;
    DecryptInverts(XorBlocks(p, iv), w);
    XorBlocksTwice(p, iv);
  }

  /** The blocks of a buffer; each ciphertext block is the vector of the next. */
  function CbcEncrypt(w: Schedule, iv: Block, p: seq<Block>): (r: seq<Block>)
    ensures |r| == |p|
    decreases |p|
  {
    if |p| == 0 then []
    else
      var c := Chained(w, iv, p[0]);
      [c] + CbcEncrypt(w, c, p[1..])
  }

  function CbcDecrypt(w: Schedule, iv: Block, c: seq<Block>): (r: seq<Block>)
    ensures |r| == |c|
    decreases |c|
  {
    if |c| == 0 then [] else [Unchained(w, iv, c[0])] + CbcDecrypt(w, c[0], c[1..])
  }

  /** Decryption undoes encryption, for any number of blocks. */
  lemma {:induction false} CbcInverse(w: Schedule, iv: Block, p: seq<Block>)
    ensures CbcDecrypt(w, iv, CbcEncrypt(w, iv, p)) == p
    decreases |p|
  {
    hide Chained, Unchained;
    if 0 < |p| {
      var c := Chained(w, iv, p[0]);
      var rest := CbcEncrypt(w, c, p[1..]);
      assert ([c] + rest)[1..] == rest;
      UnchainedInverts(w, iv, p[0]);
      CbcInverse(w, c, p[1..]);
      assert p == [p[0]] + p[1..];
    }
  }

  /** The vector for the block after `c`: the last block of ciphertext. */
  function NextIv(iv: Block, c: seq<Block>): Block {
    if |c| == 0 then iv else c[|c| - 1]
  }

  /** Every block is combined with the ciphertext block before it, or with the vector, and then
      encrypted; decryption goes the other way. */
  lemma {:induction false} BlocksAreChained(w: Schedule, iv: Block, s: seq<Block>, i: nat)
    requires i < |s|
    ensures var c := CbcEncrypt(w, iv, s); c[i] == Encrypt(XorBlocks(s[i], if i == 0 then iv else c[i - 1]), w)
    ensures CbcDecrypt(w, iv, s)[i] == XorBlocks(Decrypt(s[i], w), if i == 0 then iv else s[i - 1])
    decreases |s|
  {
    hide Encrypt, Decrypt, XorBlocks;
    if i > 0 {
      BlocksAreChained(w, Chained(w, iv, s[0]), s[1..], i - 1);
      BlocksAreChained(w, s[0], s[1..], i - 1);
    }
  }

  /** A buffer can be taken in parts, if the vector is carried over. */
  lemma {:induction false} CbcEncryptParts(w: Schedule, iv: Block, p: seq<Block>, q: seq<Block>)
    ensures var c := CbcEncrypt(w, iv, p); CbcEncrypt(w, iv, p + q) == c + CbcEncrypt(w, NextIv(iv, c), q)
    decreases |p|
  {
    hide Chained;
    if |p| == 0 {
      assert p + q == q;
    } else {
      var d := Chained(w, iv, p[0]);
      assert (p + q)[1..] == p[1..] + q;
      CbcEncryptParts(w, d, p[1..], q);
      var rest := CbcEncrypt(w, d, p[1..]);
      assert NextIv(iv, [d] + rest) == NextIv(d, rest);
    }
  }

  lemma {:induction false} CbcDecryptParts(w: Schedule, iv: Block, c: seq<Block>, d: seq<Block>)
    ensures CbcDecrypt(w, iv, c + d) == CbcDecrypt(w, iv, c) + CbcDecrypt(w, NextIv(iv, c), d)
    decreases |c|
  {
    hide Unchained;
    if |c| == 0 {
      assert c + d == d;
    } else {
      assert (c + d)[1..] == c[1..] + d;
      CbcDecryptParts(w, c[0], c[1..], d);
      assert NextIv(iv, c) == NextIv(c[0], c[1..]);
    }
  }

  /** AES_ctx: the round keys, and the vector carried from call to call. */
  class Context {
    const roundKey: array<bv8>
    var iv: Block

    constructor (key: seq<bv8>, iv: Block)
      requires |key| == 32
      ensures fresh(roundKey) && roundKey.Length == 240 && roundKey[..] == ScheduleOf(key) && this.iv == iv
    {
      roundKey := new bv8[240];
      this.iv := iv;
      new;
      KeyExpansion(roundKey, key);
    }

    /** Lines 505-511 and 520-527: one block, in place on a 16-byte state. */
    method XorWithIv(state: array<bv8>, v: Block)
      requires state.Length == 16
      modifies state
      ensures state[..] == XorBlocks(old(state[..]), v)
    {
      hide Xor;
      for i := 0 to 16
        invariant forall m :: 0 <= m < i ==> state[m] == Xor(old(state[m]), v[m])
        invariant forall m :: i <= m < 16 ==> state[m] == old(state[m])
      {
        state[i] := Xor(state[i], v[i]);
      }
    }

    method Load(state: array<bv8>, b: Block)
      requires state.Length == 16
      modifies state
      ensures state[..] == b
    {
      for i := 0 to 16
        invariant state[..i] == b[..i]
      {
        state[i] := b[i];
      }
      assert b[..16] == b && state[..16] == state[..];
    }

    /** One turn of the loop of AES_CBC_encrypt_buffer. */
    method EncryptBlock(p: Block, v: Block) returns (c: Block)
      requires roundKey.Length == 240
      ensures c == Chained(roundKey[..], v, p)
    {
      hide Encrypt, XorBlocks;
      var state := new bv8[16];
      Load(state, p);
      XorWithIv(state, v);
      Cipher(state, roundKey);
      c := state[..];
    }

    method DecryptBlock(c: Block, v: Block) returns (p: Block)
      requires roundKey.Length == 240
      ensures p == Unchained(roundKey[..], v, c)
    {
      hide Decrypt, XorBlocks;
      var state := new bv8[16];
      Load(state, c);
      InvCipher(state, roundKey);
      XorWithIv(state, v);
      p := state[..];
    }

    /** AES_CBC_encrypt_buffer on blocks `at` to `at + n`. */
    method EncryptBuffer(buf: array<Block>, at: nat, n: nat)
      requires roundKey.Length == 240 && at + n <= buf.Length && buf as object != roundKey as object
      modifies this`iv, buf
      ensures roundKey[..] == old(roundKey[..])
      ensures buf[..] == Encrypted(roundKey[..], old(iv), old(buf[..]), at, n)
      ensures iv == NextIv(old(iv), CbcEncrypt(roundKey[..], old(iv), old(buf[..])[at..at + n]))
    {
      hide Chained, Encrypted, CbcEncrypt, NextIv;
      ghost var w, s, v := roundKey[..], buf[..], iv;
      var vector := iv;
      NothingDone(w, v, s, at);
      NoBlocks(w, v, s[at..at + 0]);
      for i := 0 to n
        invariant roundKey[..] == w && buf[..] == Encrypted(w, v, s, at, i)
        invariant vector == NextIv(v, CbcEncrypt(w, v, s[at..at + i]))
      {
        EncryptedNext(w, v, s, at, i);
        var c := EncryptBlock(buf[at + i], vector);
        ghost var was := buf[..];
        buf[at + i] := c;
        assert buf[..] == was[at + i := c];
        vector := c;
      }
      iv := vector;
    }

    /** AES_CBC_decrypt_buffer on blocks `at` to `at + n`. */
    method DecryptBuffer(buf: array<Block>, at: nat, n: nat)
      requires roundKey.Length == 240 && at + n <= buf.Length && buf as object != roundKey as object
      modifies this`iv, buf
      ensures roundKey[..] == old(roundKey[..])
      ensures buf[..] == Decrypted(roundKey[..], old(iv), old(buf[..]), at, n)
      ensures iv == NextIv(old(iv), old(buf[..])[at..at + n])
    {
      hide Unchained, Decrypted, CbcDecrypt, NextIv;
      ghost var w, s, v := roundKey[..], buf[..], iv;
      NothingDone(w, v, s, at);
      NoBlocks(w, v, s[at..at + 0]);
      for i := 0 to n
        invariant roundKey[..] == w && buf[..] == Decrypted(w, v, s, at, i) && iv == NextIv(v, s[at..at + i])
      {
        DecryptedNext(w, v, s, at, i);
        var storeNextIv := buf[at + i];
        var p := DecryptBlock(buf[at + i], iv);
        ghost var was := buf[..];
        buf[at + i] := p;
        assert buf[..] == was[at + i := p];
        iv := storeNextIv;
      }
    }
  }

  /** The buffer with its blocks `at` to `at + n` encrypted. */
  function Encrypted(w: Schedule, iv: Block, s: seq<Block>, at: nat, n: nat): (r: seq<Block>)
    requires at + n <= |s|
    ensures |r| == |s|
  {
    hide CbcEncrypt;
    s[..at] + CbcEncrypt(w, iv, s[at..at + n]) + s[at + n..]
  }

  function Decrypted(w: Schedule, iv: Block, s: seq<Block>, at: nat, n: nat): (r: seq<Block>)
    requires at + n <= |s|
    ensures |r| == |s|
  {
    hide CbcDecrypt;
    s[..at] + CbcDecrypt(w, iv, s[at..at + n]) + s[at + n..]
  }

  lemma NothingDone(w: Schedule, iv: Block, s: seq<Block>, at: nat)
    requires at <= |s|
    ensures Encrypted(w, iv, s, at, 0) == s && Decrypted(w, iv, s, at, 0) == s
  {
    hide Chained, Unchained;
  }

  lemma ReplaceFirst<T>(pre: seq<T>, mid: seq<T>, post: seq<T>, c: T)
    requires 1 <= |post|
    ensures (pre + mid + post)[|pre| + |mid|] == post[0]
    ensures (pre + mid + post)[|pre| + |mid| := c] == pre + (mid + [c]) + post[1..]
  {
  }

  lemma CbcEncryptSnoc(w: Schedule, iv: Block, p: seq<Block>, x: Block)
    ensures var c := CbcEncrypt(w, iv, p); var d := Chained(w, NextIv(iv, c), x);
      CbcEncrypt(w, iv, p + [x]) == c + [d] && NextIv(iv, c + [d]) == d
  {
    hide Chained, CbcEncrypt;
    CbcEncryptParts(w, iv, p, [x]);
    OneBlock(w, NextIv(iv, CbcEncrypt(w, iv, p)), x);
  }

  lemma CbcDecryptSnoc(w: Schedule, iv: Block, c: seq<Block>, x: Block)
    ensures CbcDecrypt(w, iv, c + [x]) == CbcDecrypt(w, iv, c) + [Unchained(w, NextIv(iv, c), x)]
    ensures NextIv(iv, c + [x]) == x
  {
    hide Unchained, CbcDecrypt;
    CbcDecryptParts(w, iv, c, [x]);
    OneBlock(w, NextIv(iv, c), x);
  }

  /** One more block of the buffer. */
  lemma EncryptedNext(w: Schedule, iv: Block, s: seq<Block>, at: nat, n: nat)
    requires at + n < |s|
    ensures var e := Encrypted(w, iv, s, at, n);
      var c := Chained(w, NextIv(iv, CbcEncrypt(w, iv, s[at..at + n])), s[at + n]);
      && e[at + n] == s[at + n] && Encrypted(w, iv, s, at, n + 1) == e[at + n := c]
      && NextIv(iv, CbcEncrypt(w, iv, s[at..at + n + 1])) == c
  {
    hide Chained, CbcEncrypt, NextIv;
    var p, x := s[at..at + n], s[at + n];
    var mid := CbcEncrypt(w, iv, p);
    assert s[at..at + n + 1] == p + [x];
    CbcEncryptSnoc(w, iv, p, x);
    ReplaceFirst(s[..at], mid, s[at + n..], Chained(w, NextIv(iv, mid), x));
    assert s[at + n..][1..] == s[at + n + 1..];
  }

  lemma DecryptedNext(w: Schedule, iv: Block, s: seq<Block>, at: nat, n: nat)
    requires at + n < |s|
    ensures var d := Decrypted(w, iv, s, at, n);
      && d[at + n] == s[at + n] && NextIv(iv, s[at..at + n + 1]) == s[at + n]
      && Decrypted(w, iv, s, at, n + 1) == d[at + n := Unchained(w, NextIv(iv, s[at..at + n]), s[at + n])]
  {
    hide Unchained, CbcDecrypt, NextIv;
    var c, x := s[at..at + n], s[at + n];
    assert s[at..at + n + 1] == c + [x];
    CbcDecryptSnoc(w, iv, c, x);
    ReplaceFirst(s[..at], CbcDecrypt(w, iv, c), s[at + n..], Unchained(w, NextIv(iv, c), x));
    assert s[at + n..][1..] == s[at + n + 1..];
  }

  lemma OneBlock(w: Schedule, iv: Block, p: Block)
    ensures CbcEncrypt(w, iv, [p]) == [Chained(w, iv, p)]
    ensures CbcDecrypt(w, iv, [p]) == [Unchained(w, iv, p)]
  {
    hide Chained, Unchained;
    var none: seq<Block> := [];
    assert [p][1..] == none;
  }

  /** Taking one block a call does the same as taking them all at once. */
  lemma EncryptedAgain(w: Schedule, iv: Block, s: seq<Block>, n: nat)
    requires n < |s|
    ensures var v := NextIv(iv, CbcEncrypt(w, iv, s[..n])); var e := Encrypted(w, iv, s, 0, n);
      && Encrypted(w, v, e, n, 1) == Encrypted(w, iv, s, 0, n + 1)
      && NextIv(v, CbcEncrypt(w, v, e[n..n + 1])) == NextIv(iv, CbcEncrypt(w, iv, s[..n + 1]))
  {
    hide Chained, CbcEncrypt, Encrypted, NextIv;
    var v := NextIv(iv, CbcEncrypt(w, iv, s[..n]));
    EncryptedNext(w, iv, s, 0, n);
    assert s[0..n] == s[..n] && s[0..n + 1] == s[..n + 1];
    var e := Encrypted(w, iv, s, 0, n);
    NothingDone(w, v, e, n);
    EncryptedNext(w, v, e, n, 0);
    NoBlocks(w, v, e[n..n + 0]);
  }

  lemma NoBlocks(w: Schedule, iv: Block, s: seq<Block>)
    requires |s| == 0
    ensures NextIv(iv, CbcEncrypt(w, iv, s)) == iv && NextIv(iv, s) == iv
  {
  }

  lemma DecryptedAgain(w: Schedule, iv: Block, s: seq<Block>, n: nat)
    requires n < |s|
    ensures var v := NextIv(iv, s[..n]); var d := Decrypted(w, iv, s, 0, n);
      && Decrypted(w, v, d, n, 1) == Decrypted(w, iv, s, 0, n + 1) && NextIv(v, d[n..n + 1]) == NextIv(iv, s[..n + 1])
  {
    hide Unchained, CbcDecrypt, Decrypted, NextIv;
    var v := NextIv(iv, s[..n]);
    DecryptedNext(w, iv, s, 0, n);
    assert s[0..n] == s[..n] && s[0..n + 1] == s[..n + 1];
    var d := Decrypted(w, iv, s, 0, n);
    NothingDone(w, v, d, n);
    DecryptedNext(w, v, d, n, 0);
    NoBlocks(w, v, d[n..n + 0]);
  }

  lemma AllDone(w: Schedule, iv: Block, s: seq<Block>)
    ensures Encrypted(w, iv, s, 0, |s|) == CbcEncrypt(w, iv, s)
    ensures Decrypted(w, iv, s, 0, |s|) == CbcDecrypt(w, iv, s)
  {
    assert s[0..|s|] == s;
  }

  /** aes_encrypt of pin.c, lines 57-64: one block a call. */
  method EncryptByBlock(key: seq<bv8>, iv: Block, plaintext: seq<Block>) returns (ciphertext: array<Block>)
    requires |key| == 32
    ensures fresh(ciphertext) && ciphertext[..] == CbcEncrypt(ScheduleOf(key), iv, plaintext)
  {
    hide ScheduleOf, Encrypted, CbcEncrypt, NextIv;
    ghost var w := ScheduleOf(key);
    var ctx := new Context(key, iv);
    ciphertext := new Block[|plaintext|](i requires 0 <= i < |plaintext| => plaintext[i]);
    NothingDone(w, iv, plaintext, 0);
    NoBlocks(w, iv, plaintext[..0]);
    assert ciphertext[..] == plaintext && plaintext[..0] == [];
    for i := 0 to |plaintext|
      invariant ctx.roundKey.Length == 240 && ctx.roundKey[..] == w && fresh(ctx) && fresh(ciphertext)
      invariant ciphertext.Length == |plaintext| && ciphertext[..] == Encrypted(w, iv, plaintext, 0, i)
      invariant ctx.iv == NextIv(iv, CbcEncrypt(w, iv, plaintext[..i]))
    {
      EncryptedAgain(w, iv, plaintext, i);
      ctx.EncryptBuffer(ciphertext, i, 1);
    }
    AllDone(w, iv, plaintext);
  }

  /** aes_decrypt of pin.c, lines 47-54. */
  method DecryptByBlock(key: seq<bv8>, iv: Block, ciphertext: seq<Block>) returns (plaintext: array<Block>)
    requires |key| == 32
    ensures fresh(plaintext) && plaintext[..] == CbcDecrypt(ScheduleOf(key), iv, ciphertext)
  {
    hide ScheduleOf, Decrypted, CbcDecrypt, NextIv;
    ghost var w := ScheduleOf(key);
    var ctx := new Context(key, iv);
    plaintext := new Block[|ciphertext|](i requires 0 <= i < |ciphertext| => ciphertext[i]);
    NothingDone(w, iv, ciphertext, 0);
    NoBlocks(w, iv, ciphertext[..0]);
    assert plaintext[..] == ciphertext && ciphertext[..0] == [];
    for i := 0 to |ciphertext|
      invariant ctx.roundKey.Length == 240 && ctx.roundKey[..] == w && fresh(ctx) && fresh(plaintext)
      invariant plaintext.Length == |ciphertext| && plaintext[..] == Decrypted(w, iv, ciphertext, 0, i)
      invariant ctx.iv == NextIv(iv, ciphertext[..i])
    {
      DecryptedAgain(w, iv, ciphertext, i);
      ctx.DecryptBuffer(plaintext, i, 1);
    }
    AllDone(w, iv, ciphertext);
  }
}
