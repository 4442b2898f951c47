/** The keys and sealed messages of the PIN protocols, section 6.5 of CTAP 2.1, over HMAC,
    SHA-256 and AES as their standards define them. */
module PinStandard {
  import opened Bytes
  import opened Sha256
  import opened Fips180
  import opened Aes
  import AesCbc
  import opened PinCrypto

  ghost predicate ExpandsTo(secret: seq<byte>, prk: seq<byte>, k: Keys) {
    && IsHmac(Zeros(32), secret, prk)
    && IsHmac(prk, Ascii("CTAP2 HMAC key") + [1], k.mac) && IsHmac(prk, Ascii("CTAP2 AES key") + [1], k.aes)
  }

  /** HKDF with a salt of zeros, RFC 5869, in protocol 2, and one digest for both keys in
      protocol 1. */
  ghost predicate AreKeys(proto: nat, secret: seq<byte>, k: Keys) {
    if proto == 2 then exists prk :: ExpandsTo(secret, prk, k)
    else IsDigest(secret, k.mac) && k.aes == k.mac
  }

  lemma InfoStrings()
    ensures HMAC_INFO == Ascii("CTAP2 HMAC key") + [1] && AES_INFO == Ascii("CTAP2 AES key") + [1]
  {
  }

  /** The session keys are those of the standard. */
  lemma KeysMeet(proto: nat, secret: seq<byte>)
    ensures AreKeys(proto, secret, KeysFrom(proto, secret))
  {
    hide Hmac, Digest, IsHmac, IsDigest;
    InfoStrings();
    DigestMeets(secret);
    var prk := Hmac(Zeros(32), secret);
    HmacMeets(Zeros(32), secret);
    HmacMeets(prk, HMAC_INFO);
    HmacMeets(prk, AES_INFO);
    assert proto == 2 ==> ExpandsTo(secret, prk, KeysFrom(proto, secret));
  }

  /** What is stored of a PIN is the first half of its digest. */
  lemma PinHashMeets(pin: seq<byte>)
    ensures exists d :: IsDigest(pin, d) && 16 <= |d| && PinHash(pin) == d[..16]
  {
    hide Digest, IsDigest;
    DigestMeets(pin);
  }

  lemma NibbleValueIs(v: bv8)
    requires v < 16
    ensures NibbleValue(v) == v as nat
  {
  }

  lemma HalvesOf(v: bv8)
    ensures v as nat == 16 * ((v >> 4) as nat) + (v & 15) as nat
  {
  }

  /** The bits of a byte are those of its number. */
  lemma BitsAreNumber(b: byte)
    ensures ToBits(b) as nat == b
  {
    var v := ToBits(b);
    NibblesTogether(v);
    HalvesOf(v);
    NibbleValueIs(v >> 4);
    NibbleValueIs(v & 15);
    FromToBits(b);
  }

  /** Block `j` of a buffer. */
  function BlockOf(s: seq<byte>, j: nat): Block
    requires 16 * j + 16 <= |s|
  {
    Bits(s[16 * j..16 * j + 16])
  }

  lemma {:induction false} BlockAt(s: seq<byte>, j: nat)
    requires |s| % 16 == 0 && 16 * j + 16 <= |s|
    ensures BlocksOf(s)[j] == BlockOf(s, j)
    decreases |s|
  {
    hide Bits;
    if j > 0 {
      BlockAt(s[16..], j - 1);
      assert s[16..][16 * (j - 1)..16 * (j - 1) + 16] == s[16 * j..16 * j + 16];
    }
  }

  /** Block `j` of `c` is that of `s`, combined with the block of `c` before it or with the
      vector, and encrypted. */
  ghost predicate IsCbcBlock(key: seq<byte>, iv: seq<byte>, s: seq<byte>, c: seq<byte>, j: nat)
    requires Sizes(key, iv, s) && |c| == |s| && 16 * j + 16 <= |s|
  {
    BlockOf(c, j) == Aes.Encrypt(XorBlocks(BlockOf(s, j), if j == 0 then Bits(iv) else BlockOf(c, j - 1)),
                                 AesCbc.ScheduleOf(Bits(key)))
  }

  ghost predicate IsCbc(key: seq<byte>, iv: seq<byte>, s: seq<byte>, c: seq<byte>)
    requires Sizes(key, iv, s)
  {
    |c| == |s| && forall j: nat :: 16 * j + 16 <= |s| ==> IsCbcBlock(key, iv, s, c, j)
  }

  lemma CipherBlocks(key: seq<byte>, iv: seq<byte>, s: seq<byte>)
    requires Sizes(key, iv, s)
    ensures BlocksOf(PinCrypto.Encrypt(key, iv, s)) == AesCbc.CbcEncrypt(AesCbc.ScheduleOf(Bits(key)), Bits(iv), BlocksOf(s))
  {
    hide AesCbc.ScheduleOf, AesCbc.CbcEncrypt, Bits, BlocksOf, BytesOf;
    BlocksOfBytes(AesCbc.CbcEncrypt(AesCbc.ScheduleOf(Bits(key)), Bits(iv), BlocksOf(s)));
  }

  lemma BlockMeets(key: seq<byte>, iv: seq<byte>, s: seq<byte>, j: nat)
    requires Sizes(key, iv, s) && 16 * j + 16 <= |s|
    ensures IsCbcBlock(key, iv, s, PinCrypto.Encrypt(key, iv, s), j)
  {
    hide Bits, Aes.Encrypt, AesCbc.ScheduleOf, AesCbc.CbcEncrypt, XorBlocks, BlocksOf, BlockOf, PinCrypto.Encrypt;
    var c, w := PinCrypto.Encrypt(key, iv, s), AesCbc.ScheduleOf(Bits(key));
    CipherBlocks(key, iv, s);
    BlockAt(s, j);
    BlockAt(c, j);
    if j > 0 {
      BlockAt(c, j - 1);
    }
    AesCbc.BlocksAreChained(w, Bits(iv), BlocksOf(s), j);
  }

  lemma EncryptMeets(key: seq<byte>, iv: seq<byte>, s: seq<byte>)
    requires Sizes(key, iv, s)
    ensures IsCbc(key, iv, s, PinCrypto.Encrypt(key, iv, s))
  {
    hide IsCbcBlock, PinCrypto.Encrypt;
    forall j: nat | 16 * j + 16 <= |s|
      ensures IsCbcBlock(key, iv, s, PinCrypto.Encrypt(key, iv, s), j)
    {
      BlockMeets(key, iv, s, j);
    }
  }

  /** A sealed message: in protocol 2 a vector and what CBC makes of the message with it, in
      protocol 1 what CBC makes of it with a vector of zeros. */
  ghost predicate IsSealed(proto: nat, aes: seq<byte>, s: seq<byte>, c: seq<byte>)
    requires |aes| == 32 && |s| % 16 == 0
  {
    if proto == 2 then |c| == 16 + |s| && IsCbc(aes, c[..16], s, c[16..]) else IsCbc(aes, Zeros(16), s, c)
  }

  lemma SealMeets(proto: nat, aes: seq<byte>, iv: seq<byte>, s: seq<byte>)
    requires Sizes(aes, iv, s)
    ensures IsSealed(proto, aes, s, Seal(proto, aes, iv, s)) && (proto == 2 ==> Seal(proto, aes, iv, s)[..16] == iv)
  {
    hide IsCbc, PinCrypto.Encrypt;
    EncryptMeets(aes, iv, s);
    EncryptMeets(aes, Zeros(16), s);
    if proto == 2 {
      assert Seal(proto, aes, iv, s)[16..] == PinCrypto.Encrypt(aes, iv, s);
    }
  }
}
