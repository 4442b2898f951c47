/** What both ends of the PIN protocols compute: keys from the shared secret, sealed
    messages, and PINs padded to 64 bytes. */
module PinCrypto {
  import opened Bytes
  import AesCbc
  import opened Aes
  import opened Sha256

  function Bits(s: seq<byte>): (r: seq<bv8>)
    ensures |r| == |s|
  {
    seq(|s|, i requires 0 <= i < |s| => ToBits(s[i]))
  }

  function Unbits(s: seq<bv8>): (r: seq<byte>)
    ensures |r| == |s|
  {
    seq(|s|, i requires 0 <= i < |s| => FromBits(s[i]))
  }

  lemma UnbitsBits(s: seq<byte>)
    ensures Unbits(Bits(s)) == s
  {
    hide ToBits, FromBits;
    forall i | 0 <= i < |s| ensures FromBits(ToBits(s[i])) == s[i] {
      FromToBits(s[i]);
    }
  }

  /** A buffer of whole blocks, block by block. */
  function BlocksOf(s: seq<byte>): (r: seq<Block>)
    requires |s| % 16 == 0
    ensures 16 * |r| == |s|
    decreases |s|
  {
    if |s| == 0 then [] else [Bits(s[..16])] + BlocksOf(s[16..])
  }

  function BytesOf(b: seq<Block>): (r: seq<byte>)
    ensures |r| == 16 * |b|
  {
    if |b| == 0 then [] else Unbits(b[0]) + BytesOf(b[1..])
  }

  lemma {:induction false} BytesOfBlocks(s: seq<byte>)
    requires |s| % 16 == 0
    ensures BytesOf(BlocksOf(s)) == s
    decreases |s|
  {
    hide Bits, Unbits;
    if 0 < |s| {
      var rest := BlocksOf(s[16..]);
      assert ([Bits(s[..16])] + rest)[1..] == rest;
      UnbitsBits(s[..16]);
      BytesOfBlocks(s[16..]);
      assert s == s[..16] + s[16..];
    }
  }

  lemma BitsUnbits(s: seq<bv8>)
    ensures Bits(Unbits(s)) == s
  {
    hide ToBits, FromBits;
    forall i | 0 <= i < |s| ensures ToBits(FromBits(s[i])) == s[i] {
      ToFromBits(s[i]);
    }
  }

  lemma {:induction false} BlocksOfBytes(b: seq<Block>)
    ensures BlocksOf(BytesOf(b)) == b
    decreases |b|
  {
    hide Bits, Unbits;
    if 0 < |b| {
      var x, rest := Unbits(b[0]), BytesOf(b[1..]);
      assert (x + rest)[..16] == x && (x + rest)[16..] == rest;
      BitsUnbits(b[0]);
      BlocksOfBytes(b[1..]);
      assert b == [b[0]] + b[1..];
    }
  }

  ghost predicate Sizes(key: seq<byte>, iv: seq<byte>, s: seq<byte>) {
    |key| == 32 && |iv| == 16 && |s| % 16 == 0
  }

  /** AES-256 in CBC mode on bytes. */
  function Encrypt(key: seq<byte>, iv: seq<byte>, s: seq<byte>): (r: seq<byte>)
    requires Sizes(key, iv, s)
    ensures |r| == |s|
  {
    BytesOf(AesCbc.CbcEncrypt(AesCbc.ScheduleOf(Bits(key)), Bits(iv), BlocksOf(s)))
  }

  function Decrypt(key: seq<byte>, iv: seq<byte>, s: seq<byte>): (r: seq<byte>)
    requires Sizes(key, iv, s)
    ensures |r| == |s|
  {
    BytesOf(AesCbc.CbcDecrypt(AesCbc.ScheduleOf(Bits(key)), Bits(iv), BlocksOf(s)))
  }

  lemma DecryptEncrypted(key: seq<byte>, iv: seq<byte>, s: seq<byte>)
    requires Sizes(key, iv, s)
    ensures Decrypt(key, iv, Encrypt(key, iv, s)) == s
  {
    hide AesCbc.ScheduleOf, AesCbc.CbcEncrypt, AesCbc.CbcDecrypt, Bits;
    var w, v := AesCbc.ScheduleOf(Bits(key)), Bits(iv);
    BlocksOfBytes(AesCbc.CbcEncrypt(w, v, BlocksOf(s)));
    AesCbc.CbcInverse(w, v, BlocksOf(s));
    BytesOfBlocks(s);
  }

  method AesEncrypt(key: seq<byte>, iv: seq<byte>, s: seq<byte>) returns (r: seq<byte>)
    requires Sizes(key, iv, s)
    ensures r == Encrypt(key, iv, s)
  {
    hide AesCbc.ScheduleOf, AesCbc.CbcEncrypt;
    var c := AesCbc.EncryptByBlock(Bits(key), Bits(iv), BlocksOf(s));
    r := BytesOf(c[..]);
  }

  method AesDecrypt(key: seq<byte>, iv: seq<byte>, s: seq<byte>) returns (r: seq<byte>)
    requires Sizes(key, iv, s)
    ensures r == Decrypt(key, iv, s)
  {
    hide AesCbc.ScheduleOf, AesCbc.CbcDecrypt;
    var p := AesCbc.DecryptByBlock(Bits(key), Bits(iv), BlocksOf(s));
    r := BytesOf(p[..]);
  }

  /** "CTAP2 HMAC key" and "CTAP2 AES key", each with the byte 1 of the expansion. */
  const HMAC_INFO: seq<byte> :=
    [0x43, 0x54, 0x41, 0x50, 0x32, 0x20, 0x48, 0x4D, 0x41, 0x43, 0x20, 0x6B, 0x65, 0x79, 0x01]
  const AES_INFO: seq<byte> :=
    [0x43, 0x54, 0x41, 0x50, 0x32, 0x20, 0x41, 0x45, 0x53, 0x20, 0x6B, 0x65, 0x79, 0x01]

  datatype Keys = Keys(mac: seq<byte>, aes: seq<byte>)

  /** The session keys: section 6.5.7 of CTAP 2.1 for protocol 2, section 6.5.6 otherwise. */
  function KeysFrom(proto: nat, secret: seq<byte>): (k: Keys)
    ensures |k.mac| == 32 && |k.aes| == 32
  {
    if proto == 2 then
      var prk := Hmac(Zeros(32), secret);
      Keys(Hmac(prk, HMAC_INFO), Hmac(prk, AES_INFO))
    else Keys(Digest(secret), Digest(secret))
  }

  /** Lines 32-44 and 158-168 of pin.c. */
  method DeriveKeys(proto: nat, secret: seq<byte>) returns (k: Keys)
    ensures k == KeysFrom(proto, secret)
  {
    hide Hmac, Digest;
    if proto == 2 {
      var prk := HmacSha256(Zeros(32), secret);
      var mac := HmacSha256(prk, HMAC_INFO);
      var aes := HmacSha256(prk, AES_INFO);
      k := Keys(mac, aes);
    } else {
      var hashed := DigestOf(secret, []);
      assert secret + [] == secret;
      k := Keys(hashed, hashed);
    }
  }

  /** A message under the session key; protocol 2 sends its own vector along. */
  function Seal(proto: nat, aes: seq<byte>, iv: seq<byte>, s: seq<byte>): (r: seq<byte>)
    requires Sizes(aes, iv, s)
    ensures |r| == |s| + if proto == 2 then 16 else 0
  {
    if proto == 2 then iv + Encrypt(aes, iv, s) else Encrypt(aes, Zeros(16), s)
  }

  /** The first `n` bytes of a sealed message. */
  function Open(proto: nat, aes: seq<byte>, c: seq<byte>, n: nat): (r: seq<byte>)
    requires |aes| == 32 && n % 16 == 0 && |c| >= n + if proto == 2 then 16 else 0
    ensures |r| == n
  {
    if proto == 2 then Decrypt(aes, c[..16], c[16..16 + n]) else Decrypt(aes, Zeros(16), c[..n])
  }

  lemma OpenSealed(proto: nat, aes: seq<byte>, iv: seq<byte>, s: seq<byte>)
    requires Sizes(aes, iv, s)
    ensures Open(proto, aes, Seal(proto, aes, iv, s), |s|) == s
  {
    hide Encrypt, Decrypt;
    if proto == 2 {
      var e := Encrypt(aes, iv, s);
      assert (iv + e)[..16] == iv && (iv + e)[16..16 + |s|] == e;
      DecryptEncrypted(aes, iv, s);
    } else {
      var e := Encrypt(aes, Zeros(16), s);
      assert e[..|s|] == e;
      DecryptEncrypted(aes, Zeros(16), s);
    }
  }

  method OpenMessage(proto: nat, aes: seq<byte>, c: seq<byte>, n: nat) returns (r: seq<byte>)
    requires |aes| == 32 && n % 16 == 0 && |c| >= n + if proto == 2 then 16 else 0
    ensures r == Open(proto, aes, c, n)
  {
    hide Decrypt;
    if proto == 2 {
      r := AesDecrypt(aes, c[..16], c[16..16 + n]);
    } else {
      r := AesDecrypt(aes, Zeros(16), c[..n]);
    }
  }

  method SealMessage(proto: nat, aes: seq<byte>, iv: seq<byte>, s: seq<byte>) returns (r: seq<byte>)
    requires Sizes(aes, iv, s)
    ensures r == Seal(proto, aes, iv, s)
  {
    hide Encrypt;
    if proto == 2 {
      var e := AesEncrypt(aes, iv, s);
      r := iv + e;
    } else {
      r := AesEncrypt(aes, Zeros(16), s);
    }
  }

  /** A PIN, padded with zeros. */
  function PadPin(pin: seq<byte>): (r: seq<byte>)
    requires |pin| <= 64
    ensures |r| == 64
  {
    pin + Zeros(64 - |pin|)
  }

  /** Trailing zeros dropped. */
  function Trimmed(s: seq<byte>): (r: seq<byte>)
    ensures r <= s && (|r| > 0 ==> r[|r| - 1] != 0) && forall i :: |r| <= i < |s| ==> s[i] == 0
  {
    if |s| > 0 && s[|s| - 1] == 0 then Trimmed(s[..|s| - 1]) else s
  }

  lemma {:induction false} TrimmedZeros(pin: seq<byte>, n: nat)
    requires |pin| > 0 && pin[|pin| - 1] != 0
    ensures Trimmed(pin + Zeros(n)) == pin
  {
    if n == 0 {
      assert pin + Zeros(0) == pin;
    } else {
      assert (pin + Zeros(n))[..|pin| + n - 1] == pin + Zeros(n - 1);
      TrimmedZeros(pin, n - 1);
    }
  }

  /** Lines 225-226. */
  method TrimPin(pin: seq<byte>) returns (r: seq<byte>)
    ensures r == Trimmed(pin)
  {
    var pinLen := |pin|;
    assert pin[..pinLen] == pin;
    while pinLen > 0 && pin[pinLen - 1] == 0
      invariant pinLen <= |pin| && Trimmed(pin) == Trimmed(pin[..pinLen])
    {
      assert pin[..pinLen][..pinLen - 1] == pin[..pinLen - 1];
      pinLen := pinLen - 1;
    }
    r := pin[..pinLen];
  }

  /** What is stored of a PIN. */
  function PinHash(pin: seq<byte>): (r: seq<byte>)
    ensures |r| == 16
  {
    Digest(pin)[..16]
  }
}
