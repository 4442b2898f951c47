/** A discoverable credential and the 256-byte record it is stored in. */
module ResidentKey {
  import opened Bytes
  import opened Flash
  import opened Options

  datatype Credential = Credential(rpHash: seq<byte>, rpId: seq<byte>, userId: seq<byte>, userName: seq<byte>,
                                   credId: seq<byte>, privateKey: seq<byte>)
  {
    /** As given to passkey_save: the lengths are bytes. */
    predicate Given() {
      && |rpHash| == 32 && |credId| == 32 && |privateKey| == 32
      && |rpId| <= 255 && |userId| <= 255 && |userName| <= 255
    }

    /** As stored. */
    predicate Valid() {
      Given() && |rpId| <= 32 && |userId| <= 64 && |userName| <= 32
    }

    /** Cut to what a record has room for. */
    function Cut(): (c: Credential)
      requires Given()
      ensures c.Valid() && (Valid() ==> c == this)
      ensures c.rpHash == rpHash && c.credId == credId && c.privateKey == privateKey
      ensures c.rpId <= rpId && (32 <= |rpId| ==> |c.rpId| == 32)
      ensures c.userId <= userId && (64 <= |userId| ==> |c.userId| == 64)
      ensures c.userName <= userName && (32 <= |userName| ==> |c.userName| == 32)
    {
      this.(rpId := Take(rpId, 32), userId := Take(userId, 64), userName := Take(userName, 32))
    }
  }

  function Take(s: seq<byte>, n: nat): (r: seq<byte>)
    ensures |r| <= n && r <= s && (|s| <= n ==> r == s)
  {
    if |s| <= n then s else s[..n]
  }

  const MAGIC: seq<byte> := [0xD0, 0xF1, 0xD0, 0xF1]
  const BLANK: seq<byte> := [0xFF, 0xFF, 0xFF, 0xFF]

  /** `s` in a field of `n` bytes. */
  function Padded(s: seq<byte>, n: nat): (r: seq<byte>)
    requires |s| <= n
    ensures |r| == n && r[..|s|] == s
  {
    s + seq(n - |s|, i => 0xFF)
  }

  function Layout(c: Credential): Page
    requires c.Valid()
  {
    MAGIC + c.rpHash + [|c.userId|] + Padded(c.userId, 64) + c.credId + c.privateKey
      + [|c.userName|] + Padded(c.userName, 32) + [|c.rpId|] + Padded(c.rpId, 32) + seq(25, i => 0xFF)
  }

  predicate Live(p: Page) {
    p[0..4] == MAGIC
  }

  predicate Empty(p: Page) {
    p[0..4] == BLANK
  }

  /** A field whose length is stored before it. */
  function Field(p: Page, at: nat, n: nat): (r: seq<byte>)
    requires at + 1 + n <= 256
    ensures |r| <= n
  {
    Take(p[at + 1..at + 1 + n], p[at])
  }

  function RpHash(p: Page): seq<byte> {
    p[4..36]
  }

  function CredId(p: Page): seq<byte> {
    p[101..133]
  }

  function Parse(p: Page): (c: Credential)
    ensures c.Valid()
  {
    Credential(RpHash(p), Field(p, 198, 32), Field(p, 36, 64), Field(p, 165, 32), CredId(p), p[133..165])
  }

  lemma FieldOf(p: Page, at: nat, n: nat, s: seq<byte>)
    requires at + 1 + n <= 256 && |s| <= n <= 255 && p[at] == |s| && p[at + 1..at + 1 + n] == Padded(s, n)
    ensures Field(p, at, n) == s
  {
  }

  lemma ParseLayout(c: Credential)
    requires c.Valid()
    ensures Live(Layout(c)) && !Empty(Layout(c)) && Parse(Layout(c)) == c
  {
    var p := Layout(c);
    assert p[0] == 0xD0 && p[0..4] == MAGIC;
    assert p[4..36] == c.rpHash && p[101..133] == c.credId && p[133..165] == c.privateKey;
    assert p[36] == |c.userId| && p[37..101] == Padded(c.userId, 64);
    assert p[165] == |c.userName| && p[166..198] == Padded(c.userName, 32);
    assert p[198] == |c.rpId| && p[199..231] == Padded(c.rpId, 32);
    FieldOf(p, 36, 64, c.userId);
    FieldOf(p, 165, 32, c.userName);
    FieldOf(p, 198, 32, c.rpId);
  }

  /** Where the fields of a record lie: those of the packed struct, with the words lowest byte
      first, and every byte behind a string as it was erased. */
  lemma RecordFields(c: Credential, i: nat)
    requires c.Valid() && i < 256
    ensures var p := Layout(c);
      && p[0] as int + 256 * (p[1] as int) + 0x1_0000 * (p[2] as int) + 0x100_0000 * (p[3] as int) == 0xF1D0_F1D0
      && p[4..36] == c.rpHash && p[101..133] == c.credId && p[133..165] == c.privateKey
      && p[36] == |c.userId| && p[165] == |c.userName| && p[198] == |c.rpId|
      && p[37..37 + |c.userId|] == c.userId && p[166..166 + |c.userName|] == c.userName
      && p[199..199 + |c.rpId|] == c.rpId
      && (37 + |c.userId| <= i < 101 || 166 + |c.userName| <= i < 198 || 199 + |c.rpId| <= i ==> p[i] == 0xFF)
  {
    var p := Layout(c);
    assert p[0..4] == MAGIC && p[0] == MAGIC[0] && p[1] == MAGIC[1] && p[2] == MAGIC[2] && p[3] == MAGIC[3];
    assert p[37..101] == Padded(c.userId, 64) && p[166..198] == Padded(c.userName, 32) && p[199..231] == Padded(c.rpId, 32);
    assert p[37..101][..|c.userId|] == p[37..37 + |c.userId|];
    assert p[166..198][..|c.userName|] == p[166..166 + |c.userName|];
    assert p[199..231][..|c.rpId|] == p[199..199 + |c.rpId|];
  }

  /** A page is erased or holds one whole record. */
  ghost predicate Whole(p: Page) {
    p == Erased() || exists c: Credential :: c.Valid() && p == Layout(c)
  }

  function Slot(p: Page): Option<Credential> {
    if Live(p) then Some(Parse(p)) else None
  }

  lemma WholeSlot(p: Page)
    requires Whole(p)
    ensures Live(p) == !Empty(p) && Empty(p) == (p == Erased()) && Slot(p).Some? == Live(p)
    ensures Live(p) ==> p == Layout(Parse(p))
  {
    hide Layout, Parse;
    if p == Erased() {
      assert p[0] == 0xFF && p[0..4] == BLANK;
      assert MAGIC[0] == 0xD0;
    } else {
      var c: Credential :| c.Valid() && p == Layout(c);
      ParseLayout(c);
    }
  }

  /** Lines 69-72: the record is that of the same relying party and user. */
  predicate SameAccount(p: Page, c: Credential)
    requires c.Given()
  {
    && Live(p) && RpHash(p) == c.rpHash && p[36] == |c.userId|
    && 37 + |c.userId| <= 256 && p[37..37 + |c.userId|] == c.userId
  }

  /** The slot holds the account of `c`. */
  predicate IsAccount(x: Option<Credential>, c: Credential) {
    x.Some? && x.value.rpHash == c.rpHash && x.value.userId == c.userId
  }

  lemma AccountReads(p: Page, c: Credential)
    requires Whole(p) && c.Given()
    ensures SameAccount(p, c) == IsAccount(Slot(p), c)
  {
    WholeSlot(p);
    if Live(p) {
      LayoutUserId(Parse(p));
      assert p == Layout(Parse(p));
    }
  }

  lemma LayoutUserId(c: Credential)
    requires c.Valid()
    ensures Layout(c)[36] == |c.userId| && Layout(c)[37..37 + |c.userId|] == c.userId
  {
    var p := Layout(c);
    assert p[37..101] == Padded(c.userId, 64);
    assert p[37..37 + |c.userId|] == p[37..101][..|c.userId|];
  }
}
