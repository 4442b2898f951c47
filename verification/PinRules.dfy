/** What a request must prove before the stored PIN changes: over single steps, and over whole
    runs. */
module PinRules {
  import opened Bytes
  import opened Options
  import opened Sha256
  import opened PinCrypto
  import opened PinPage
  import opened ClientPin
  import opened PinProtocol

  /** The protocol a request is taken under. */
  function ProtocolOf(s: State, q: Request): nat {
    if q.proto.Some? then q.proto.value else s.proto
  }

  /** A request for subcommand `sub` that a session key can be made for. */
  ghost predicate Opened(s: State, q: Request, sub: nat) {
    && q.sub == Some(sub) && s.keyed && q.agreement.Key? && (ProtocolOf(s, q) == 1 || ProtocolOf(s, q) == 2)
  }

  function KeysOf(s: State, q: Request): (k: Keys)
    requires q.agreement.Key?
    ensures |k.aes| == 32
  {
    KeysFrom(ProtocolOf(s, q), q.agreement.secret)
  }

  /** What protocol 2 puts in front of a sealed message. */
  function Front(s: State, q: Request): nat {
    if ProtocolOf(s, q) == 2 then 16 else 0
  }

  /** The authentication parameter is the start of the HMAC of `msg`: all of it in protocol 2,
      half of it in protocol 1. */
  ghost predicate Authentic(s: State, q: Request, msg: seq<byte>)
    requires q.agreement.Key?
  {
    q.pinAuth == Some(Hmac(KeysOf(s, q).mac, msg)[..if ProtocolOf(s, q) == 2 then 32 else 16])
  }

  ghost predicate HasNewPin(s: State, q: Request) {
    q.newPinEnc.Some? && |q.newPinEnc.value| == 64 + Front(s, q)
  }

  ghost predicate HasHash(s: State, q: Request) {
    q.pinHashEnc.Some? && |q.pinHashEnc.value| == 16 + Front(s, q)
  }

  /** The PIN inside the request. */
  function NewPin(s: State, q: Request): seq<byte>
    requires q.agreement.Key? && q.newPinEnc.Some? && |q.newPinEnc.value| == 64 + Front(s, q)
  {
    Trimmed(Open(ProtocolOf(s, q), KeysOf(s, q).aes, q.newPinEnc.value, 64))
  }

  /** The request names the hash that is stored. */
  ghost predicate NamesPin(s: State, q: Request)
    requires q.agreement.Key? && q.pinHashEnc.Some? && |q.pinHashEnc.value| >= 16 + Front(s, q)
  {
    s.pin.Some? && Open(ProtocolOf(s, q), KeysOf(s, q).aes, q.pinHashEnc.value, 16) == s.pin.value.hash
  }

  /** A first PIN: none is stored, and the MAC is that of the new one. */
  ghost predicate FirstPin(s: State, q: Request) {
    && Opened(s, q, 3) && s.pin.None? && HasNewPin(s, q) && Authentic(s, q, q.newPinEnc.value)
    && |NewPin(s, q)| >= 4
  }

  /** A well-formed and authentic request to change the PIN. */
  ghost predicate AsksForChange(s: State, q: Request) {
    && Opened(s, q, 4) && HasNewPin(s, q) && HasHash(s, q)
    && Authentic(s, q, q.newPinEnc.value + q.pinHashEnc.value)
  }

  /** Another PIN, from someone who knows the one that is stored. */
  ghost predicate NextPin(s: State, q: Request) {
    AsksForChange(s, q) && NamesPin(s, q) && |NewPin(s, q)| >= 4
  }

  function HashOf(s: State): Option<seq<byte>> {
    if s.pin.None? then None else Some(s.pin.value.hash)
  }

  lemma SetPinExactly(s: State, q: Request, r: Random)
    requires r.Valid() && Opened(s, q, 3)
    ensures var o := Step(s, q, r);
      if FirstPin(s, q) then o == Outcome(s.(proto := ProtocolOf(s, q), pin := Some(PinState(PinHash(NewPin(s, q)), 8))), Done)
      else o.response != Done && o.state == s.(proto := ProtocolOf(s, q))
  {
    hide KeysFrom, Open, Hmac, Trimmed, PinHash, ChangePin, GetToken;
  }

  lemma ChangePinExactly(s: State, q: Request, r: Random)
    requires r.Valid() && Opened(s, q, 4)
    ensures var o := Step(s, q, r);
      if NextPin(s, q) then o == Outcome(s.(proto := ProtocolOf(s, q), pin := Some(PinState(PinHash(NewPin(s, q)), 8))), Done)
      else o.response != Done && HashOf(o.state) == HashOf(s)
  {
    hide KeysFrom, Open, Hmac, Trimmed, PinHash, SetPin, GetToken;
  }

  /** No other request stores a PIN. */
  lemma OthersKeepPin(s: State, q: Request, r: Random)
    requires r.Valid() && !Opened(s, q, 3) && !Opened(s, q, 4)
    ensures var o := Step(s, q, r); o.response != Done && HashOf(o.state) == HashOf(s)
  {
    hide KeysFrom, Open, Seal, SetPin, ChangePin;
  }

  /** A PIN is stored exactly for a first PIN, and for a new PIN from who knows the old one;
      what is then stored is the hash of the PIN in the request, with eight tries. */
  lemma StoresExactly(s: State, q: Request, r: Random)
    requires r.Valid()
    ensures var o := Step(s, q, r);
      if FirstPin(s, q) || NextPin(s, q)
      then o.response == Done && o.state.pin == Some(PinState(PinHash(NewPin(s, q)), 8))
      else o.response != Done && HashOf(o.state) == HashOf(s)
  {
    hide Step, KeysFrom, Open, Hmac, Trimmed, PinHash;
    if Opened(s, q, 3) {
      SetPinExactly(s, q, r);
    } else if Opened(s, q, 4) {
      ChangePinExactly(s, q, r);
    } else {
      OthersKeepPin(s, q, r);
    }
  }

  /** A stored hash that is different afterwards was set first, or changed by who knows it. */
  lemma HashChangesFor(s: State, q: Request, r: Random)
    requires r.Valid() && HashOf(Step(s, q, r).state) != HashOf(s)
    ensures FirstPin(s, q) || NextPin(s, q)
  {
    hide Step, FirstPin, NextPin, HashOf;
    StoresExactly(s, q, r);
  }

  /** One try less, if there is a PIN and a try. */
  function OneTryLess(pin: Option<PinState>): Option<PinState> {
    if pin.None? || pin.value.retries == 0 then pin else Some(pin.value.(retries := pin.value.retries - 1))
  }

  /** A request for a change that does not name the stored PIN is refused, and costs exactly
      one of the tries that are left; nothing else changes. */
  lemma WrongOldPinCostsOneTry(s: State, q: Request, r: Random)
    requires r.Valid() && AsksForChange(s, q) && !NamesPin(s, q)
    ensures Step(s, q, r) == Outcome(s.(proto := ProtocolOf(s, q), pin := OneTryLess(s.pin)), Fail(0x31))
  {
    hide KeysFrom, Open, Hmac, Trimmed, PinHash, SetPin, GetToken;
  }

  /** A change that is not authentic is refused before the old PIN is looked at. */
  lemma ForgedChangeCostsNothing(s: State, q: Request, r: Random)
    requires r.Valid() && Opened(s, q, 4) && HasNewPin(s, q) && HasHash(s, q)
    requires q.pinAuth.Some? && |q.pinAuth.value| == 16 + Front(s, q)
    requires !Authentic(s, q, q.newPinEnc.value + q.pinHashEnc.value)
    ensures Step(s, q, r) == Outcome(s.(proto := ProtocolOf(s, q)), Fail(0x33))
  {
    hide KeysFrom, Open, Hmac, Trimmed, PinHash, SetPin, GetToken;
  }

  /** A second first PIN is refused, whatever it is. */
  lemma NoSecondFirstPin(s: State, q: Request, r: Random)
    requires r.Valid() && Opened(s, q, 3) && s.pin.Some? && q.pinAuth.Some?
    ensures Step(s, q, r) == Outcome(s.(proto := ProtocolOf(s, q)), Fail(0x33))
  {
    hide KeysFrom, ChangePin, GetToken;
  }

  /** The four ways in which a token request fails, in their order. */
  lemma TokenRefused(s: State, q: Request, sub: nat, r: Random)
    requires r.Valid() && (sub == 5 || sub == 9) && Opened(s, q, sub)
    ensures var o := Step(s, q, r); var kept := s.(proto := ProtocolOf(s, q));
      if q.pinHashEnc.None? || |q.pinHashEnc.value| < 16 + Front(s, q) then o == Outcome(kept, Fail(0x93))
      else if s.pin.None? then o == Outcome(kept, Fail(0x35))
      else if s.pin.value.retries == 0 then o == Outcome(kept, Fail(0x32))
      else if !NamesPin(s, q) then o == Outcome(kept.(pin := OneTryLess(s.pin)), Fail(0x31))
      else
        && o.response.Token? && o.state.pin == Some(s.pin.value.(retries := 8)) && o.state.token == r.token
        && o.state.tokenLen == (if sub == 5 && ProtocolOf(s, q) == 1 then 16 else 32)
        && |o.response.sealed| == o.state.tokenLen + Front(s, q)
  {
    hide KeysFrom, Open, Seal, SetPin, ChangePin;
  }

  /** The commands that need no session key, and those that do not get one. */
  lemma OtherAnswers(s: State, q: Request, r: Random)
    requires r.Valid() && q.sub.Some?
    ensures var o, kept := Step(s, q, r), s.(proto := ProtocolOf(s, q));
      if q.sub.value == 1 then
        o == Outcome(kept, if s.pin.None? then Fail(0x35) else Retries(s.pin.value.retries))
      else if ProtocolOf(s, q) != 1 && ProtocolOf(s, q) != 2 then o == Outcome(kept, Fail(0x2B))
      else if q.sub.value == 2 then o == Outcome(kept.(keyed := true, hasToken := false), PublicKey)
      else if q.sub.value !in {3, 4, 5, 9} || !s.keyed || q.agreement.NoKey? then o == Outcome(kept, Fail(0x01))
      else q.agreement.BadKey? ==> o == Outcome(kept, Fail(0x91))
  {
    hide KeysFrom, SetPin, ChangePin, GetToken;
  }

  /** What stores or removes a PIN in a run. */
  ghost predicate Replaces(s: State, e: Event) {
    e.Reset? || (e.Command? && (FirstPin(s, e.q) || NextPin(s, e.q)))
  }

  lemma OnlyReplacing(s: State, e: Event, o: Outcome)
    requires Follows(s, e, o) && !Replaces(s, e)
    ensures HashOf(o.state) == HashOf(s)
  {
    hide Step, FirstPin, NextPin;
    if e.Command? {
      StoresExactly(s, e.q, e.r);
    }
  }

  /** In every run, the stored hash only changes at a first PIN, a change by who knows the
      PIN, or a reset. */
  lemma {:induction false} HashChangesOnlyAt(ss: seq<State>, es: seq<Event>, os: seq<Outcome>, i: nat, j: nat)
    requires IsRun(ss, es, os) && i <= j < |ss| && HashOf(ss[i]) != HashOf(ss[j])
    ensures exists k :: i <= k < j && Replaces(ss[k], es[k])
  {
    hide Follows, Replaces, HashOf;
    if i < j {
      assert Follows(ss[j - 1], es[j - 1], os[j - 1]);
      if !Replaces(ss[j - 1], es[j - 1]) {
        OnlyReplacing(ss[j - 1], es[j - 1], os[j - 1]);
        HashChangesOnlyAt(ss, es, os, i, j - 1);
      }
    }
  }

  /** The old PIN is named in a request of the run that is authentic. */
  ghost predicate Knows(s: State, e: Event) {
    e.Command? && AsksForChange(s, e.q) && NamesPin(s, e.q)
  }

  lemma KeepsHash(s: State, e: Event, o: Outcome)
    requires Follows(s, e, o) && s.pin.Some? && !e.Reset? && !Knows(s, e)
    ensures o.state.pin.Some? && o.state.pin.value.hash == s.pin.value.hash
  {
    assert !Replaces(s, e);
    hide Follows, Replaces, Knows;
    OnlyReplacing(s, e, o);
  }

  /** Once a PIN is set, its hash stays in every run without a reset and without a request
      that names it. */
  lemma {:induction false} PinStays(ss: seq<State>, es: seq<Event>, os: seq<Outcome>, i: nat, j: nat)
    requires IsRun(ss, es, os) && i <= j < |ss| && ss[i].pin.Some?
    requires forall k :: i <= k < j ==> !es[k].Reset? && !Knows(ss[k], es[k])
    ensures ss[j].pin.Some? && ss[j].pin.value.hash == ss[i].pin.value.hash
  {
    hide Follows, Knows;
    if i < j {
      PinStays(ss, es, os, i, j - 1);
      assert Follows(ss[j - 1], es[j - 1], os[j - 1]) && !Knows(ss[j - 1], es[j - 1]);
      KeepsHash(ss[j - 1], es[j - 1], os[j - 1]);
    }
  }

  /** Under a live token, user verification is claimed exactly for the start of the HMAC of the
      client data hash: 32 bytes in protocol 2 and 16 in protocol 1. */
  lemma VerifiedExactly(s: State, pinAuth: seq<byte>, hash: seq<byte>)
    requires s.hasToken && 0 < s.tokenLen <= |s.token| && 32 <= |hash|
    ensures var mac := Hmac(s.token[..s.tokenLen], hash[..32]);
      VerifyUser(s, Some(pinAuth), Some(hash)) == Verified
      <==> (s.proto == 2 && pinAuth == mac) || (s.proto == 1 && pinAuth == mac[..16])
    ensures VerifyUser(s, Some(pinAuth), Some(hash)) != Verified ==> VerifyUser(s, Some(pinAuth), Some(hash)) == Refused
  {
    hide Hmac;
  }

  /** Without a live token, every code is refused. */
  lemma RefusedWithoutToken(s: State, pinAuth: seq<byte>, hash: Option<seq<byte>>)
    requires !s.hasToken
    ensures VerifyUser(s, Some(pinAuth), hash) == Refused
  {
  }

  /** The code that a host computes with the token it was sent is verified by the device. */
  lemma HostIsVerified(s: State, proto: nat, sub: nat, secret: seq<byte>, pin: seq<byte>, hashIv: seq<byte>, r: Random,
                       hash: seq<byte>)
    requires Session(s, proto) && (sub == 5 || sub == 9) && |hash| == 32
    requires s.pin.Some? && s.pin.value.hash == PinHash(pin) && 0 < s.pin.value.retries
    requires |hashIv| == 16 && r.Valid()
    ensures var o := Step(s, TokenRequest(proto, sub, secret, pin, hashIv), r);
      && o.response.Token?
      && var mac := Hmac(HostToken(proto, secret, o.response.sealed), hash);
        VerifyUser(o.state, Some(if proto == 2 then mac else mac[..16]), Some(hash)) == Verified
  {
    hide Hmac, VerifyUser, HostToken, PinHash, TokenRequest, Step;
    var q := TokenRequest(proto, sub, secret, pin, hashIv);
    var o := Step(s, q, r);
    TokenReachesHost(s, proto, sub, secret, pin, hashIv, r);
    StepIssues(s, Command(q, r), o);
    TokenProtocol(s, proto, sub, secret, pin, hashIv, r);
    CodeIsVerified(o.state, HostToken(proto, secret, o.response.sealed), hash);
  }

  lemma CodeIsVerified(s: State, token: seq<byte>, hash: seq<byte>)
    requires s.hasToken && 0 < s.tokenLen <= |s.token| && token == s.token[..s.tokenLen] && |hash| == 32
    requires s.proto == 1 || s.proto == 2
    ensures var mac := Hmac(token, hash);
      VerifyUser(s, Some(if s.proto == 2 then mac else mac[..16]), Some(hash)) == Verified
  {
    hide Hmac, VerifyUser;
    var mac := Hmac(token, hash);
    assert hash[..32] == hash;
    VerifiedExactly(s, if s.proto == 2 then mac else mac[..16], hash);
  }

  lemma TokenProtocol(s: State, proto: nat, sub: nat, secret: seq<byte>, pin: seq<byte>, hashIv: seq<byte>, r: Random)
    requires Session(s, proto) && (sub == 5 || sub == 9) && |hashIv| == 16 && r.Valid()
    ensures Step(s, TokenRequest(proto, sub, secret, pin, hashIv), r).state.proto == proto
  {
    hide KeysFrom, Seal, Open, PinHash, SetPin, ChangePin;
  }
}
