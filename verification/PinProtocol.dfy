/** The PIN protocols end to end, and over whole runs. */
module PinProtocol {
  import opened Bytes
  import opened Options
  import opened Sha256
  import opened PinCrypto
  import opened PinPage
  import opened ClientPin

  /** A request of the platform, whose own session has the same secret. */
  function ChangeRequest(proto: nat, secret: seq<byte>, oldPin: seq<byte>, newPin: seq<byte>,
                         pinIv: seq<byte>, hashIv: seq<byte>): Request
    requires |newPin| <= 64 && |pinIv| == 16 && |hashIv| == 16
  {
    hide KeysFrom, Seal, Hmac, Digest;
    var k := KeysFrom(proto, secret);
    var newPinEnc := Seal(proto, k.aes, pinIv, PadPin(newPin));
    var pinHashEnc := Seal(proto, k.aes, hashIv, PinHash(oldPin));
    Request(Some(4), Some(proto), Key(secret), Some(Auth(proto, k.mac, newPinEnc + pinHashEnc)),
            Some(newPinEnc), Some(pinHashEnc))
  }

  function SetRequest(proto: nat, secret: seq<byte>, newPin: seq<byte>, pinIv: seq<byte>): Request
    requires |newPin| <= 64 && |pinIv| == 16
  {
    hide KeysFrom, Seal, Hmac, Digest;
    var k := KeysFrom(proto, secret);
    var newPinEnc := Seal(proto, k.aes, pinIv, PadPin(newPin));
    Request(Some(3), Some(proto), Key(secret), Some(Auth(proto, k.mac, newPinEnc)), Some(newPinEnc), None)
  }

  /** get_token of key_manager.py, with subcommand 9, and getPinToken with 5. */
  function TokenRequest(proto: nat, sub: nat, secret: seq<byte>, pin: seq<byte>, hashIv: seq<byte>): Request
    requires |hashIv| == 16
  {
    hide KeysFrom, Seal, Hmac, Digest;
    var k := KeysFrom(proto, secret);
    Request(Some(sub), Some(proto), Key(secret), None, None, Some(Seal(proto, k.aes, hashIv, PinHash(pin))))
  }

  /** What the host makes of the token it is sent. */
  function HostToken(proto: nat, secret: seq<byte>, sealed: seq<byte>): seq<byte> {
    hide KeysFrom, Open;
    var n := |sealed| - if proto == 2 then 16 else 0;
    if n < 0 || n % 16 != 0 then [] else Open(proto, KeysFrom(proto, secret).aes, sealed, n)
  }

  /** A PIN the protocol can carry. */
  ghost predicate GoodPin(pin: seq<byte>) {
    4 <= |pin| <= 64 && pin[|pin| - 1] != 0
  }

  ghost predicate Session(s: State, proto: nat) {
    s.keyed && (proto == 1 || proto == 2)
  }

  ghost predicate Stored(s: State, pin: seq<byte>) {
    s.pin == Some(PinState(PinHash(pin), 8))
  }

  /** The PIN that arrives sealed is the one that is stored. */
  lemma StoresWhatWasSealed(s: State, aes: seq<byte>, pin: seq<byte>, iv: seq<byte>)
    requires GoodPin(pin) && |aes| == 32 && |iv| == 16
    ensures var r := StorePin(s, aes, Seal(s.proto, aes, iv, PadPin(pin)));
      r.response == Done && r.state == s.(pin := Some(PinState(PinHash(pin), 8)))
  {
    hide Seal, Open, Trimmed, PinHash;
    OpenSealed(s.proto, aes, iv, PadPin(pin));
    TrimmedZeros(pin, 64 - |pin|);
  }

  lemma SetPinWorks(s: State, proto: nat, secret: seq<byte>, pin: seq<byte>, iv: seq<byte>, r: Random)
    requires Session(s, proto) && s.pin.None? && GoodPin(pin) && |iv| == 16 && r.Valid()
    ensures var o := Step(s, SetRequest(proto, secret, pin, iv), r);
      o.response == Done && Stored(o.state, pin) && Session(o.state, proto) && o.state.hasToken == s.hasToken
  {
    hide KeysFrom, Seal, Auth, StorePin, PinHash, ChangePin, GetToken;
    StoresWhatWasSealed(s.(proto := proto), KeysFrom(proto, secret).aes, pin, iv);
  }

  lemma ChangePinWorks(s: State, proto: nat, secret: seq<byte>, oldPin: seq<byte>, newPin: seq<byte>,
                       pinIv: seq<byte>, hashIv: seq<byte>, r: Random)
    requires Session(s, proto) && s.pin.Some? && s.pin.value.hash == PinHash(oldPin)
    requires GoodPin(newPin) && |pinIv| == 16 && |hashIv| == 16 && r.Valid()
    ensures var o := Step(s, ChangeRequest(proto, secret, oldPin, newPin, pinIv, hashIv), r);
      o.response == Done && Stored(o.state, newPin) && Session(o.state, proto)
  {
    hide KeysFrom, Seal, Open, Auth, StorePin, PinHash, SetPin, GetToken;
    var k := KeysFrom(proto, secret);
    OpenSealed(proto, k.aes, hashIv, PinHash(oldPin));
    StoresWhatWasSealed(s.(proto := proto), k.aes, newPin, pinIv);
  }

  /** With the right PIN and tries left, a token is issued, and the host opens exactly the
      bytes that the device will use. */
  lemma TokenReachesHost(s: State, proto: nat, sub: nat, secret: seq<byte>, pin: seq<byte>, hashIv: seq<byte>, r: Random)
    requires Session(s, proto) && (sub == 5 || sub == 9)
    requires s.pin.Some? && s.pin.value.hash == PinHash(pin) && 0 < s.pin.value.retries
    requires |hashIv| == 16 && r.Valid()
    ensures var o := Step(s, TokenRequest(proto, sub, secret, pin, hashIv), r);
      && o.response.Token? && o.state.hasToken && o.state.tokenLen <= |o.state.token|
      && HostToken(proto, secret, o.response.sealed) == o.state.token[..o.state.tokenLen]
      && o.state.pin == Some(PinState(PinHash(pin), 8))
  {
    hide KeysFrom, Seal, Open, PinHash, SetPin, ChangePin;
    var k := KeysFrom(proto, secret);
    OpenSealed(proto, k.aes, hashIv, PinHash(pin));
    OpenSealed(proto, k.aes, r.iv, r.token[..IssuedLen(proto, sub)]);
  }

  /** A PIN changed in one session opens the next, in either protocol. */
  lemma ChangedPinGetsToken(s: State, proto: nat, secret: seq<byte>, oldPin: seq<byte>, newPin: seq<byte>,
                            pinIv: seq<byte>, hashIv: seq<byte>, agree: Request, proto': nat, sub: nat,
                            secret': seq<byte>, hashIv': seq<byte>, r: Random, r': Random, r'': Random)
    requires Session(s, proto) && s.pin.Some? && s.pin.value.hash == PinHash(oldPin) && GoodPin(newPin)
    requires |pinIv| == 16 && |hashIv| == 16 && |hashIv'| == 16 && r.Valid() && r'.Valid() && r''.Valid()
    requires agree.sub == Some(2) && agree.proto == Some(proto') && (proto' == 1 || proto' == 2)
    requires sub == 5 || sub == 9
    ensures var s1 := Step(s, ChangeRequest(proto, secret, oldPin, newPin, pinIv, hashIv), r).state;
      var s2 := Step(s1, agree, r').state;
      var o := Step(s2, TokenRequest(proto', sub, secret', newPin, hashIv'), r'');
      && !s2.hasToken && o.response.Token? && o.state.tokenLen <= |o.state.token|
      && HostToken(proto', secret', o.response.sealed) == o.state.token[..o.state.tokenLen]
  {
    hide ChangeRequest, TokenRequest, HostToken, PinHash, Keyed;
    ChangePinWorks(s, proto, secret, oldPin, newPin, pinIv, hashIv, r);
    var s1 := Step(s, ChangeRequest(proto, secret, oldPin, newPin, pinIv, hashIv), r).state;
    var s2 := Step(s1, agree, r').state;
    TokenReachesHost(s2, proto', sub, secret', newPin, hashIv', r'');
  }

  /** The same after a first PIN: a new session with it, in either protocol, yields the
      token. */
  lemma SetPinGetsToken(s: State, proto: nat, secret: seq<byte>, pin: seq<byte>, pinIv: seq<byte>, agree: Request,
                        proto': nat, sub: nat, secret': seq<byte>, hashIv: seq<byte>, r: Random, r': Random, r'': Random)
    requires Session(s, proto) && s.pin.None? && GoodPin(pin)
    requires |pinIv| == 16 && |hashIv| == 16 && r.Valid() && r'.Valid() && r''.Valid()
    requires agree.sub == Some(2) && agree.proto == Some(proto') && (proto' == 1 || proto' == 2)
    requires sub == 5 || sub == 9
    ensures var s1 := Step(s, SetRequest(proto, secret, pin, pinIv), r).state;
      var s2 := Step(s1, agree, r').state;
      var o := Step(s2, TokenRequest(proto', sub, secret', pin, hashIv), r'');
      && !s2.hasToken && o.response.Token? && o.state.tokenLen <= |o.state.token|
      && HostToken(proto', secret', o.response.sealed) == o.state.token[..o.state.tokenLen]
  {
    hide SetRequest, TokenRequest, HostToken, PinHash, Keyed;
    SetPinWorks(s, proto, secret, pin, pinIv, r);
    var s1 := Step(s, SetRequest(proto, secret, pin, pinIv), r).state;
    var s2 := Step(s1, agree, r').state;
    TokenReachesHost(s2, proto', sub, secret', pin, hashIv, r'');
  }

  /** A PIN with another hash costs one try and issues nothing. */
  lemma WrongPinCostsOneTry(s: State, proto: nat, sub: nat, secret: seq<byte>, pin: seq<byte>, hashIv: seq<byte>, r: Random)
    requires Session(s, proto) && (sub == 5 || sub == 9) && |hashIv| == 16 && r.Valid()
    requires s.pin.Some? && s.pin.value.hash != PinHash(pin) && 0 < s.pin.value.retries
    ensures var o := Step(s, TokenRequest(proto, sub, secret, pin, hashIv), r);
      && o.response == Fail(0x31) && o.state.hasToken == s.hasToken && o.state.token == s.token
      && o.state.pin == Some(s.pin.value.(retries := s.pin.value.retries - 1))
  {
    hide KeysFrom, Seal, Open, PinHash, SetPin, ChangePin;
    OpenSealed(proto, KeysFrom(proto, secret).aes, hashIv, PinHash(pin));
  }

  /** What can happen to the device: a command, a factory reset, or a power cycle. */
  datatype Event = Command(q: Request, r: Random) | Reset | PowerOn

  function Next(s: State, e: Event): Outcome
    requires e.Command? ==> e.r.Valid()
  {
    match e
    case Command(q, r) => Step(s, q, r)
    case Reset => Outcome(s.(pin := None), Done)
    case PowerOn => Outcome(s.(proto := 1, keyed := false, hasToken := false), Done)
  }

  ghost predicate Follows(s: State, e: Event, o: Outcome) {
    (e.Command? ==> e.r.Valid()) && Next(s, e) == o
  }

  /** A run: `os[i]` is what event `i` makes of `ss[i]`. */
  ghost predicate IsRun(ss: seq<State>, es: seq<Event>, os: seq<Outcome>) {
    && |ss| == |es| + 1 && |os| == |es| && !ss[0].hasToken
    && (ss[0].pin.Some? ==> ss[0].pin.value.retries <= 8)
    && forall i :: 0 <= i < |es| ==> Follows(ss[i], es[i], os[i]) && ss[i + 1] == os[i].state
  }

  lemma StepKeepsRetries(s: State, e: Event, o: Outcome)
    requires Follows(s, e, o) && (s.pin.Some? ==> s.pin.value.retries <= 8)
    ensures o.state.pin.Some? ==> o.state.pin.value.retries <= 8
  {
    hide KeysFrom, Open, Seal, Auth, Trimmed, PinHash;
  }

  lemma {:induction false} RetriesAtMostEight(ss: seq<State>, es: seq<Event>, os: seq<Outcome>, i: nat)
    requires IsRun(ss, es, os) && i < |ss|
    ensures ss[i].pin.Some? ==> ss[i].pin.value.retries <= 8
  {
    hide Follows;
    if 0 < i {
      RetriesAtMostEight(ss, es, os, i - 1);
      assert Follows(ss[i - 1], es[i - 1], os[i - 1]);
      StepKeepsRetries(ss[i - 1], es[i - 1], os[i - 1]);
    }
  }

  /** The hash presented in a token request is the stored one, and tries are left. */
  ghost predicate Matches(s0: State, q: Request) {
    && q.sub.Some? && q.agreement.Key? && q.pinHashEnc.Some? && s0.pin.Some? && 0 < s0.pin.value.retries
    && var s := WithProtocol(s0, q);
      && |q.pinHashEnc.value| >= SealedLen(s.proto, 16)
      && Open(s.proto, KeysFrom(s.proto, q.agreement.secret).aes, q.pinHashEnc.value, 16) == s0.pin.value.hash
  }

  /** The commands under a session key, as far as tokens go. */
  lemma KeyedIssues(s: State, q: Request, sub: nat, r: Random)
    requires r.Valid() && NeedsKey(sub) && q.sub.Some? && s == WithProtocol(s, q)
    ensures var o := Keyed(s, q, sub, r);
      if o.response.Token? then
        && Matches(s, q)
        && o.state.hasToken && o.state.token == r.token && 0 < o.state.tokenLen <= |o.state.token|
      else
        && o.response != PublicKey
        && o.state.hasToken == s.hasToken && o.state.token == s.token && o.state.tokenLen == s.tokenLen
  {
    hide KeysFrom, Open, Seal, Auth, Trimmed, PinHash;
  }

  /** A token is issued only for the stored hash and with tries left, it is the one then in
      use, and nothing else makes one live. */
  lemma StepIssues(s: State, e: Event, o: Outcome)
    requires Follows(s, e, o)
    ensures o.response.Token? ==> e.Command? && Matches(s, e.q) && o.state.hasToken && o.state.token == e.r.token
    ensures o.response.Token? ==> 0 < o.state.tokenLen <= |o.state.token|
    ensures o.state.hasToken && !o.response.Token? ==> s.hasToken && o.state.token == s.token && o.state.tokenLen == s.tokenLen
    ensures o.response == PublicKey || e.PowerOn? ==> !o.state.hasToken
  {
    hide KeysFrom, Open, Keyed;
    if e.Command? && e.q.sub.Some? && NeedsKey(e.q.sub.value) {
      KeyedIssues(WithProtocol(s, e.q), e.q, e.q.sub.value, e.r);
    }
  }

  /** The live token was issued by event `j`, and no key agreement or power cycle came
      since. */
  ghost predicate IssuedAt(ss: seq<State>, es: seq<Event>, os: seq<Outcome>, i: nat, j: nat)
    requires |ss| == |es| + 1 && |os| == |es| && i < |ss|
  {
    && j < i && os[j].response.Token? && es[j].Command? && Matches(ss[j], es[j].q)
    && ss[i].token == es[j].r.token && ss[i].tokenLen == os[j].state.tokenLen && 0 < ss[i].tokenLen <= |ss[i].token|
    && forall k :: j < k < i ==> os[k].response != PublicKey && !es[k].PowerOn?
  }

  /** In every run, a live token means that the right PIN hash was presented since the last
      key agreement. */
  lemma {:induction false} LiveTokenWasEarned(ss: seq<State>, es: seq<Event>, os: seq<Outcome>, i: nat) returns (j: nat)
    requires IsRun(ss, es, os) && i < |ss| && ss[i].hasToken
    ensures IssuedAt(ss, es, os, i, j)
  {
    hide Follows, Matches;
    assert 0 < i;
    assert Follows(ss[i - 1], es[i - 1], os[i - 1]);
    StepIssues(ss[i - 1], es[i - 1], os[i - 1]);
    if os[i - 1].response.Token? {
      j := i - 1;
    } else {
      j := LiveTokenWasEarned(ss, es, os, i - 1);
    }
  }

  datatype Verification = Verified | NotAsked | Refused

  /** Lines 692-716 and 939-958 of fido2.c: whether a response may claim user
      verification. */
  function VerifyUser(s: State, pinAuth: Option<seq<byte>>, hash: Option<seq<byte>>): Verification {
    if pinAuth.None? then NotAsked
    else if !s.hasToken || hash.None? || |hash.value| < 32 then Refused
    else
      var n := if s.tokenLen > 0 then s.tokenLen else if s.proto == 2 then 32 else 16;
      var mac := Hmac(if n <= |s.token| then s.token[..n] else s.token, hash.value[..32]);
      if s.proto == 2 && |pinAuth.value| == 32 && mac == pinAuth.value then Verified
      else if s.proto == 1 && |pinAuth.value| == 16 && mac[..16] == pinAuth.value then Verified
      else Refused
  }

  /** User verification is claimed only under a token earned with the right PIN. */
  lemma VerificationWasEarned(ss: seq<State>, es: seq<Event>, os: seq<Outcome>, i: nat,
                              pinAuth: Option<seq<byte>>, hash: Option<seq<byte>>) returns (j: nat)
    requires IsRun(ss, es, os) && i < |ss|
    requires VerifyUser(ss[i], pinAuth, hash) == Verified
    ensures IssuedAt(ss, es, os, i, j) && os[j].state.tokenLen <= |es[j].r.token|
    ensures pinAuth.Some? && hash.Some? && 32 <= |hash.value| && (|pinAuth.value| == 16 || |pinAuth.value| == 32)
    ensures pinAuth.value <= Hmac(es[j].r.token[..os[j].state.tokenLen], hash.value[..32])
  {
    hide Follows, Matches, Hmac;
    j := LiveTokenWasEarned(ss, es, os, i);
  }

  /** A wrong guess in a token request. */
  predicate IsMiss(e: Event, o: Outcome) {
    e.Command? && e.q.sub.Some? && (e.q.sub.value == 5 || e.q.sub.value == 9) && o.response == Fail(0x31)
  }

  function Misses(es: seq<Event>, os: seq<Outcome>, i: nat, j: nat): nat
    requires i <= j <= |es| == |os|
  {
    if i == j then 0 else Misses(es, os, i, j - 1) + if IsMiss(es[j - 1], os[j - 1]) then 1 else 0
  }

  /** No PIN set or changed, no token issued, and no reset. */
  ghost predicate NothingEarned(es: seq<Event>, os: seq<Outcome>, i: nat, j: nat)
    requires i <= j <= |es| == |os|
  {
    forall k :: i <= k < j ==> (es[k].Command? ==> os[k].response != Done && !os[k].response.Token?) && !es[k].Reset?
  }

  /** The commands under a session key, when they earn nothing. */
  lemma KeyedMiss(s: State, q: Request, sub: nat, r: Random)
    requires r.Valid() && NeedsKey(sub)
    ensures var o := Keyed(s, q, sub, r);
      o.response != Done && !o.response.Token? ==>
        if o.response == Fail(0x31) && s.pin.Some? then
          && (sub == 5 || sub == 9 ==> 0 < s.pin.value.retries) && o.state == s.(pin := Decremented(s.pin))
        else o.state == s && (sub == 5 || sub == 9 ==> o.response != Fail(0x31))
  {
    hide KeysFrom, Open, Seal, Auth, Trimmed, PinHash;
  }

  lemma StepMiss(s: State, e: Event, o: Outcome)
    requires Follows(s, e, o) && (e.Command? ==> o.response != Done && !o.response.Token?) && !e.Reset?
    ensures s.pin.Some? == o.state.pin.Some?
    ensures s.pin.Some? ==>
      && o.state.pin.value.hash == s.pin.value.hash
      && if IsMiss(e, o) then s.pin.value.retries > 0 && o.state.pin.value.retries == s.pin.value.retries - 1
         else o.state.pin.value.retries <= s.pin.value.retries
    ensures IsMiss(e, o) ==> s.pin.Some?
  {
    hide Keyed;
    if e.Command? && e.q.sub.Some? && NeedsKey(e.q.sub.value) {
      KeyedMiss(WithProtocol(s, e.q), e.q, e.q.sub.value, e.r);
    }
  }

  /** Wrong guesses are limited by the tries that are left: each lowers them by one. */
  lemma {:induction false} GuessesAreLimited(ss: seq<State>, es: seq<Event>, os: seq<Outcome>, i: nat, j: nat)
    requires IsRun(ss, es, os) && i <= j < |ss| && NothingEarned(es, os, i, j) && ss[i].pin.Some?
    ensures ss[j].pin.Some? && Misses(es, os, i, j) + ss[j].pin.value.retries <= ss[i].pin.value.retries
  {
    hide Follows, IsMiss;
    if i < j {
      GuessesAreLimited(ss, es, os, i, j - 1);
      assert Follows(ss[j - 1], es[j - 1], os[j - 1]);
      StepMiss(ss[j - 1], es[j - 1], os[j - 1]);
    }
  }

  /** With no tries left, no token request succeeds. */
  lemma NoTokenWhenBlocked(s: State, q: Request, r: Random)
    requires r.Valid() && s.pin.Some? && s.pin.value.retries == 0
    ensures !Step(s, q, r).response.Token?
  {
    hide KeysFrom, Open, Seal, Auth, Trimmed, PinHash;
  }
}
