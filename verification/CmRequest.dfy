/** Credential management requests as the host encodes them: their authentication, and what
    the device reads from their parameters. */
module CmRequest {
  import opened Bytes
  import opened Options
  import opened Cbor
  import opened CborWalk
  import opened CborMap
  import opened Credentials
  import opened Store
  import Sha256
  import ClientPin
  import PinCrypto
  import PinProtocol

  /** The value under a key, if there is one. */
  function ValueOf(items: seq<Item>, key: Key): Option<Item> {
    var e := Lookup(items, key);
    if e.Entry? then Some(e.value) else None
  }

  /** One more entry in front. */
  lemma ValueOfStep(k: Item, v: Item, rest: seq<Item>, key: Key)
    ensures ValueOf([k, v] + rest, key) == if Matches(k, key) then Some(v) else ValueOf(rest, key)
  {
    hide Encode, Matches;
    assert ([k, v] + rest)[2..] == rest;
  }

  /** A string, whether of bytes or of text. */
  function StringIn(v: Option<Item>): Option<seq<byte>> {
    if v.Some? && (v.value.ByteString? || v.value.Text?) then Some(v.value.s) else None
  }

  function MapIn(v: Option<Item>): Option<seq<Item>> {
    if v.Some? && v.value.Map? then Some(v.value.items) else None
  }

  function NumberIn(v: Option<Item>, default: nat): nat {
    if v.Some? && v.value.UInt? then v.value.v else default
  }

  // What a request says, as a list of keys and values.

  function SubCommand(items: seq<Item>): byte {
    NumberIn(ValueOf(items, Pos(1)), 0) % 256
  }

  predicate WithParams(sub: byte) {
    sub == 4 || sub == 5 || sub == 6
  }

  /** The message that is authenticated: the subcommand, and the parameters as sent. */
  function Authenticated(items: seq<Item>): seq<byte> {
    var sub, p := SubCommand(items), ValueOf(items, Pos(2));
    [sub] + if WithParams(sub) && p.Some? && |Encode(p.value)| <= 1024 then Encode(p.value) else []
  }

  function TokenKey(s: ClientPin.State): seq<byte> {
    var n := if s.tokenLen > 0 then s.tokenLen else 32;
    if n <= |s.token| then s.token[..n] else s.token
  }

  /** Whether a request is accepted: always without a PIN, and with one only under a live
      token. */
  predicate Authorized(items: seq<Item>, s: ClientPin.State) {
    var auth := StringIn(ValueOf(items, Pos(4)));
    var n := if NumberIn(ValueOf(items, Pos(3)), s.proto) == 2 then 32 else 16;
    s.pin.None?
    || (s.hasToken && auth.Some? && |auth.value| == n && Sha256.Hmac(TokenKey(s), Authenticated(items))[..n] == auth.value)
  }

  /** The parameters are there when they are read; the original has no result otherwise. */
  predicate HasParams(items: seq<Item>) {
    WithParams(SubCommand(items)) ==> ValueOf(items, Pos(2)).Some?
  }

  /** The credential that deleteCredential goes for: in the parameters, under 2 and then 1. */
  function Target(items: seq<Item>): Option<seq<byte>> {
    var params := MapIn(ValueOf(items, Pos(2)));
    var descriptor := if params.Some? then MapIn(ValueOf(params.value, Pos(2))) else None;
    var id := if descriptor.Some? then StringIn(ValueOf(descriptor.value, Pos(1))) else None;
    if id.Some? && |id.value| >= 32 then Some(id.value[..32]) else None
  }

  /** The relying party that enumerateCredentials starts with: in the parameters, under 1. */
  function PartyAsked(items: seq<Item>): Option<seq<byte>> {
    var params := MapIn(ValueOf(items, Pos(2)));
    if params.Some? then StringIn(ValueOf(params.value, Pos(1))) else None
  }

  // The same, read from the bytes of the request.

  lemma MapHead(m: seq<byte>, p: nat, it: Item)
    requires Holds(m, p, Encode(it))
    ensures p < |m| && (MajorOf(m[p]) == 5 <==> it.Map?)
  {
    FirstByte(m, p, Encode(it));
  }

  /** An encoded map inside another is found as a map of its own. */
  lemma InnerMap(m: seq<byte>, a: nat, len: nat, items: seq<Item>, key: Key, depth: nat)
    requires HasMap(m, a, len, items, depth) && Lookup(items, key).Entry?
    ensures var e := Lookup(items, key); var at := a + |Head(5, |items| / 2)| + e.offset;
      && 1 <= depth && at + |Encode(e.value)| <= a + len && MapHeadAt(m, at, e.value)
      && (e.value.Map? ==> HasMap(m, at, |Encode(e.value)|, e.value.items, depth - 1))
  {
    hide Lookup, Encode, Head;
    FoundValue(m, a, len, items, key, depth);
    MapHead(m, a + |Head(5, |items| / 2)| + Lookup(items, key).offset, Lookup(items, key).value);
  }

  predicate MapHeadAt(m: seq<byte>, p: nat, it: Item) {
    p < |m| && (MajorOf(m[p]) == 5 <==> it.Map?)
  }

  /** A string in a map that lies under `key`, as the two nested lookups read it. */
  method InnerString(m: seq<byte>, a: nat, len: nat, key: Key, key': Key, depth: nat, ghost items: seq<Item>)
      returns (r: Option<seq<byte>>)
    requires HasMap(m, a, len, items, depth) && ValueOf(items, key).Some?
    ensures var inner := MapIn(ValueOf(items, key));
      r == if inner.Some? then StringIn(ValueOf(inner.value, key')) else None
  {
    hide Lookup, Find, HasMap, Encode, Head;
    var at, n := GetMapItem(m, a, len, key, depth, items);
    InnerMap(m, a, len, items, key, depth);
    if MajorOf(m[at]) != 5 {
      return None;
    }
    ghost var inner := Lookup(items, key).value.items;
    RoomAfter(m, at, n, inner, depth - 1);
    var s := GetMapString(m, at, n, key', depth - 1, inner);
    r := if s.Slice? then Some(SliceBytes(m, s.at, s.len)) else None;
  }

  lemma RoomAfter(m: seq<byte>, a: nat, len: nat, items: seq<Item>, depth: nat)
    requires HasMap(m, a, len, items, depth)
    ensures a + len + 2 < |m|
  {
  }

  function SliceBytes(m: seq<byte>, at: nat, len: nat): seq<byte> {
    if at + len <= |m| then m[at..at + len] else []
  }

  /** The subcommand, and the parameters as they were sent. */
  method AuthMessage(m: seq<byte>, a: nat, len: nat, depth: nat, sub: byte, ghost items: seq<Item>)
      returns (message: seq<byte>)
    requires HasMap(m, a, len, items, depth) && HasParams(items) && sub == SubCommand(items)
    ensures message == Authenticated(items)
  {
    hide Lookup, Find, HasMap, Encode, Head;
    RoomAfter(m, a, len, items, depth);
    message := [sub];
    if WithParams(sub) {
      var at, n := GetMapItem(m, a, len, Pos(2), depth, items);
      if 0 < n <= 1024 {
        message := message + SliceBytes(m, at, n);
      }
    }
  }

  /** The test before every subcommand. */
  method Authorize(m: seq<byte>, a: nat, len: nat, depth: nat, s: ClientPin.State, ghost items: seq<Item>)
      returns (ok: bool)
    requires HasMap(m, a, len, items, depth) && HasParams(items)
    ensures ok == Authorized(items, s)
  {
    hide Lookup, Find, HasMap, Encode, Head, Sha256.Hmac, Authenticated;
    RoomAfter(m, a, len, items, depth);
    if s.pin.None? {
      return true;
    }
    var v := GetMapInt(m, a, len, Pos(1), depth, items);
    var sub := if v.Number? then v.v % 256 else 0;
    v := GetMapInt(m, a, len, Pos(3), depth, items);
    var proto := if v.Number? then v.v else s.proto;
    var message := AuthMessage(m, a, len, depth, sub, items);
    var auth := GetMapString(m, a, len, Pos(4), depth, items);
    var n := if proto == 2 then 32 else 16;
    if !s.hasToken || !auth.Slice? || auth.len != n {
      return false;
    }
    var mac := Sha256.HmacSha256(TokenKey(s), message);
    ok := mac[..n] == SliceBytes(m, auth.at, auth.len);
  }

  /** deleteCredential. */
  method DeleteCredential(m: seq<byte>, a: nat, len: nat, depth: nat, store: PasskeyStore, ghost items: seq<Item>)
      returns (ok: bool, ghost k: int)
    requires store.Valid() && HasMap(m, a, len, items, depth) && ValueOf(items, Pos(2)).Some?
    requires var params := MapIn(ValueOf(items, Pos(2))); params.Some? ==> ValueOf(params.value, Pos(2)).Some?
    modifies store.memory.pages
    ensures store.Valid() && ok == (0 <= k)
    ensures if Target(items).Some? then FirstWithId(old(store.Contents()), Target(items).value, k) else k == -1
    ensures store.Contents() == if ok then old(store.Contents())[k := None] else old(store.Contents())
  {
    hide Lookup, Find, HasMap, Encode, Head, FirstWithId;
    ok, k := false, -1;
    var at, n := GetMapItem(m, a, len, Pos(2), depth, items);
    InnerMap(m, a, len, items, Pos(2), depth);
    if MajorOf(m[at]) != 5 {
      return;
    }
    var id := InnerString(m, at, n, Pos(2), Pos(1), depth - 1, Lookup(items, Pos(2)).value.items);
    if id.Some? && |id.value| >= 32 {
      ok, k := store.Delete(id.value[..32]);
    }
  }

  /** With a PIN set, every request without a live token is refused. */
  lemma RefusedWithoutToken(items: seq<Item>, s: ClientPin.State)
    requires s.pin.Some? && !s.hasToken
    ensures !Authorized(items, s)
  {
  }

  /** In every run, a request that is accepted while a PIN is set carries a code over its
      subcommand and parameters, under a token issued for a matching PIN hash after the last
      key agreement. */
  lemma ManagementWasEarned(ss: seq<ClientPin.State>, es: seq<PinProtocol.Event>, os: seq<ClientPin.Outcome>, i: nat,
                            items: seq<Item>) returns (j: nat)
    requires PinProtocol.IsRun(ss, es, os) && i < |ss| && ss[i].pin.Some? && Authorized(items, ss[i])
    ensures PinProtocol.IssuedAt(ss, es, os, i, j) && os[j].state.tokenLen <= |es[j].r.token|
    ensures var auth := StringIn(ValueOf(items, Pos(4)));
      auth.Some? && (|auth.value| == 16 || |auth.value| == 32)
      && auth.value <= Sha256.Hmac(es[j].r.token[..os[j].state.tokenLen], Authenticated(items))
  {
    hide PinProtocol.Follows, PinProtocol.Matches, Sha256.Hmac, ValueOf, Authenticated;
    j := PinProtocol.LiveTokenWasEarned(ss, es, os, i);
  }

  // The host.

  /** A request as the host builds it, in the order it adds the keys. */
  function HostRequest(sub: byte, params: Option<Item>, mac: seq<byte>): seq<Item> {
    [UInt(1), UInt(sub)] + ([UInt(3), UInt(2)]
      + ((if params.Some? then [UInt(2), params.value] else []) + [UInt(4), ByteString(mac)]))
  }

  /** What the host authenticates with its token. */
  function HostMac(token: seq<byte>, sub: byte, params: Option<Item>): seq<byte> {
    Sha256.Hmac(token, [sub] + if params.Some? then Encode(params.value) else [])
  }

  lemma HostRequestReads(sub: byte, params: Option<Item>, mac: seq<byte>, key: Key)
    requires key.Pos? && 0 < key.k
    ensures ValueOf(HostRequest(sub, params, mac), key)
         == if key.k == 1 then Some(UInt(sub)) else if key.k == 3 then Some(UInt(2))
            else if key.k == 2 then params else if key.k == 4 then Some(ByteString(mac)) else None
  {
    hide Lookup;
    var last := [UInt(4), ByteString(mac)];
    var tail := (if params.Some? then [UInt(2), params.value] else []) + last;
    ValueOfStep(UInt(1), UInt(sub), [UInt(3), UInt(2)] + tail, key);
    ValueOfStep(UInt(3), UInt(2), tail, key);
    if params.Some? {
      ValueOfStep(UInt(2), params.value, last, key);
    } else {
      assert tail == last;
    }
    OneEntry(UInt(4), ByteString(mac), key);
  }

  lemma OneEntry(k: Item, v: Item, key: Key)
    ensures ValueOf([k, v], key) == if Matches(k, key) then Some(v) else None
  {
    ValueOfStep(k, v, [], key);
    assert [k, v] + [] == [k, v];
  }

  /** A host that sends parameters exactly with the subcommands that take them is accepted
      exactly for the code it computes itself. */
  lemma HostIsAuthorized(s: ClientPin.State, sub: byte, params: Option<Item>, mac: seq<byte>)
    requires s.pin.Some? && s.hasToken && 0 < s.tokenLen <= |s.token|
    requires params.Some? == (sub == 4 || sub == 5 || sub == 6) && (params.Some? ==> |Encode(params.value)| <= 1024)
    ensures Authorized(HostRequest(sub, params, mac), s) <==> mac == HostMac(s.token[..s.tokenLen], sub, params)
  {
    hide Encode, Sha256.Hmac, HostRequest, ValueOf;
    HostRequestReads(sub, params, mac, Pos(1));
    HostRequestReads(sub, params, mac, Pos(2));
    HostRequestReads(sub, params, mac, Pos(3));
    HostRequestReads(sub, params, mac, Pos(4));
  }

  /** With the right PIN, the token that the host decrypts opens credential management. */
  lemma TokenOpensManagement(s: ClientPin.State, secret: seq<byte>, pin: seq<byte>, hashIv: seq<byte>, r: ClientPin.Random,
                             sub: byte, params: Option<Item>)
    requires PinProtocol.Session(s, 2) && s.pin.Some? && s.pin.value.hash == PinCrypto.PinHash(pin)
    requires 0 < s.pin.value.retries && |hashIv| == 16 && r.Valid()
    requires params.Some? == (sub == 4 || sub == 5 || sub == 6) && (params.Some? ==> |Encode(params.value)| <= 1024)
    ensures var o := ClientPin.Step(s, PinProtocol.TokenRequest(2, 9, secret, pin, hashIv), r);
      && o.response.Token?
      && var token := PinProtocol.HostToken(2, secret, o.response.sealed);
        Authorized(HostRequest(sub, params, HostMac(token, sub, params)), o.state)
  {
    hide Encode, Authorized, HostRequest, ClientPin.Step, HostMac, PinProtocol.HostToken, PinProtocol.TokenRequest;
    PinProtocol.TokenReachesHost(s, 2, 9, secret, pin, hashIv, r);
    var o := ClientPin.Step(s, PinProtocol.TokenRequest(2, 9, secret, pin, hashIv), r);
    PinProtocol.StepIssues(s, PinProtocol.Command(PinProtocol.TokenRequest(2, 9, secret, pin, hashIv), r), o);
    HostIsAuthorized(o.state, sub, params, HostMac(o.state.token[..o.state.tokenLen], sub, params));
  }

  /** The hash that the host lists the credentials of is the one that is read. */
  lemma HostPartyIsRead(sub: byte, rpHash: seq<byte>, mac: seq<byte>)
    ensures PartyAsked(HostRequest(sub, Some(Map([UInt(1), ByteString(rpHash)])), mac)) == Some(rpHash)
  {
    hide ValueOf, HostRequest;
    HostRequestReads(sub, Some(Map([UInt(1), ByteString(rpHash)])), mac, Pos(2));
    OneEntry(UInt(1), ByteString(rpHash), Pos(1));
  }

  /** "id", "type" and "public-key". */
  const ID: seq<byte> := [0x69, 0x64]
  const TYPE: seq<byte> := [0x74, 0x79, 0x70, 0x65]
  const PUBLIC_KEY: seq<byte> := [0x70, 0x75, 0x62, 0x6C, 0x69, 0x63, 0x2D, 0x6B, 0x65, 0x79]

  /** What the host sends to delete a credential: a descriptor with text keys. */
  function HostDescriptor(credId: seq<byte>): Item {
    Map([Text(ID), ByteString(credId), Text(TYPE), Text(PUBLIC_KEY)])
  }

  /** Deleting needs a descriptor with the number 1 for a key; the host names it "id", so
      that none of its requests deletes anything. */
  lemma HostDeleteFindsNothing(sub: byte, credId: seq<byte>, mac: seq<byte>)
    ensures Target(HostRequest(sub, Some(Map([UInt(2), HostDescriptor(credId)])), mac)) == None
  {
    hide ValueOf, HostRequest;
    HostRequestReads(sub, Some(Map([UInt(2), HostDescriptor(credId)])), mac, Pos(2));
    OneEntry(UInt(2), HostDescriptor(credId), Pos(2));
    ValueOfStep(Text(ID), ByteString(credId), [Text(TYPE), Text(PUBLIC_KEY)], Pos(1));
    OneEntry(Text(TYPE), Text(PUBLIC_KEY), Pos(1));
    assert [Text(ID), ByteString(credId)] + [Text(TYPE), Text(PUBLIC_KEY)]
        == [Text(ID), ByteString(credId), Text(TYPE), Text(PUBLIC_KEY)];
  }

  /** A descriptor names a credential exactly if its first entry under the number 1 is a
      string of 32 bytes or more. */
  lemma DeletesExactly(sub: byte, descriptor: seq<Item>, mac: seq<byte>)
    ensures var t := Target(HostRequest(sub, Some(Map([UInt(2), Map(descriptor)])), mac));
      var id := StringIn(ValueOf(descriptor, Pos(1)));
      t == if id.Some? && |id.value| >= 32 then Some(id.value[..32]) else None
  {
    hide ValueOf, HostRequest;
    HostRequestReads(sub, Some(Map([UInt(2), Map(descriptor)])), mac, Pos(2));
    OneEntry(UInt(2), Map(descriptor), Pos(2));
  }
}
