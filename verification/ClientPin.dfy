/** authenticatorClientPIN: setting and changing the PIN, and issuing tokens for it. */
module ClientPin {
  import opened Bytes
  import opened Options
  import opened Sha256
  import opened PinCrypto
  import opened PinPage

  /** What the request says about the platform's key: nothing, coordinates of the wrong
      size, or a key, here with the secret that ECDH makes of it. */
  datatype Agreement = NoKey | BadKey | Key(secret: seq<byte>)

  datatype Request = Request(sub: Option<nat>, proto: Option<nat>, agreement: Agreement, pinAuth: Option<seq<byte>>,
                             newPinEnc: Option<seq<byte>>, pinHashEnc: Option<seq<byte>>)

  /** What the random generator would produce for this request. */
  datatype Random = Random(token: seq<byte>, iv: seq<byte>)
  {
    predicate Valid() {
      |token| == 32 && |iv| == 16
    }
  }

  datatype Response = Fail(code: byte) | Retries(n: nat) | PublicKey | Done | Token(sealed: seq<byte>)

  datatype State = State(proto: nat, keyed: bool, hasToken: bool, token: seq<byte>, tokenLen: nat, pin: Option<PinState>)

  datatype Outcome = Outcome(state: State, response: Response)

  function AuthLen(proto: nat): nat {
    if proto == 2 then 32 else 16
  }

  /** Protocol 2 puts 16 bytes of vector before a sealed message. */
  function SealedLen(proto: nat, n: nat): nat {
    if proto == 2 then n + 16 else n
  }

  /** The authentication parameter for a message. */
  function Auth(proto: nat, mac: seq<byte>, msg: seq<byte>): (r: seq<byte>)
    ensures |r| == AuthLen(proto)
  {
    Hmac(mac, msg)[..AuthLen(proto)]
  }

  /** A new PIN, opened and trimmed: stored if it has at least four bytes. */
  function StorePin(s: State, aes: seq<byte>, newPinEnc: seq<byte>): Outcome
    requires |aes| == 32 && |newPinEnc| == SealedLen(s.proto, 64)
  {
    var pin := Trimmed(Open(s.proto, aes, newPinEnc, 64));
    if |pin| < 4 then Outcome(s, Fail(0x37))
    else Outcome(s.(pin := Some(PinState(PinHash(pin), 8))), Done)
  }

  /** setPIN, lines 172-240. */
  function SetPin(s: State, k: Keys, q: Request): Outcome
    requires |k.aes| == 32
  {
    if q.pinAuth.None? then Outcome(s, Fail(0x30))
    else if s.pin.Some? then Outcome(s, Fail(0x33))
    else if q.newPinEnc.None? || |q.newPinEnc.value| != SealedLen(s.proto, 64)
      || |q.pinAuth.value| != AuthLen(s.proto) then Outcome(s, Fail(0x01))
    else if Auth(s.proto, k.mac, q.newPinEnc.value) != q.pinAuth.value then Outcome(s, Fail(0x33))
    else StorePin(s, k.aes, q.newPinEnc.value)
  }

  function Decremented(pin: Option<PinState>): Option<PinState> {
    match pin
    case None => None
    case Some(p) => Some(p.(retries := if p.retries > 0 then p.retries - 1 else 0))
  }

  /** changePIN, lines 241-308. */
  function ChangePin(s: State, k: Keys, q: Request): Outcome
    requires |k.aes| == 32
  {
    hide Open, Auth;
    if q.pinAuth.None? || q.newPinEnc.None? || q.pinHashEnc.None? || |q.pinAuth.value| != AuthLen(s.proto)
      || |q.newPinEnc.value| != SealedLen(s.proto, 64) || |q.pinHashEnc.value| != SealedLen(s.proto, 16)
    then Outcome(s, Fail(0x01))
    else if Auth(s.proto, k.mac, q.newPinEnc.value + q.pinHashEnc.value) != q.pinAuth.value then Outcome(s, Fail(0x33))
    else if s.pin.None? || Open(s.proto, k.aes, q.pinHashEnc.value, 16) != s.pin.value.hash
    then Outcome(s.(pin := Decremented(s.pin)), Fail(0x31))
    else StorePin(s, k.aes, q.newPinEnc.value)
  }

  /** How many bytes of the token are issued. */
  function IssuedLen(proto: nat, sub: nat): nat {
    if proto == 1 && sub == 5 then 16 else 32
  }

  /** getPinToken and getPinUvAuthTokenUsingPinWithPermissions, lines 309-396. */
  function GetToken(s: State, k: Keys, q: Request, sub: nat, r: Random): Outcome
    requires |k.aes| == 32 && r.Valid()
  {
    hide Open, Seal;
    if q.pinHashEnc.None? || |q.pinHashEnc.value| < SealedLen(s.proto, 16) then Outcome(s, Fail(0x93))
    else if s.pin.None? then Outcome(s, Fail(0x35))
    else if s.pin.value.retries == 0 then Outcome(s, Fail(0x32))
    else if Open(s.proto, k.aes, q.pinHashEnc.value, 16) != s.pin.value.hash
    then Outcome(s.(pin := Decremented(s.pin)), Fail(0x31))
    else
      var n := IssuedLen(s.proto, sub);
      Outcome(s.(pin := Some(s.pin.value.(retries := 8)), token := r.token, hasToken := true, tokenLen := n),
              Token(Seal(s.proto, k.aes, r.iv, r.token[..n])))
  }

  /** The request goes on with the protocol it names, or else the one in use. */
  function WithProtocol(s: State, q: Request): State {
    if q.proto.Some? then s.(proto := q.proto.value) else s
  }

  predicate NeedsKey(sub: nat) {
    sub == 3 || sub == 4 || sub == 5 || sub == 9
  }

  /** The commands under a session key, lines 127-400. */
  function Keyed(s: State, q: Request, sub: nat, r: Random): Outcome
    requires r.Valid()
  {
    if !s.keyed || q.agreement.NoKey? then Outcome(s, Fail(0x01))
    else if q.agreement.BadKey? then Outcome(s, Fail(0x91))
    else
      var k := KeysFrom(s.proto, q.agreement.secret);
      if sub == 3 then SetPin(s, k, q)
      else if sub == 4 then ChangePin(s, k, q)
      else GetToken(s, k, q, sub, r)
  }

  /** process_client_pin */
  function Step(s0: State, q: Request, r: Random): Outcome
    requires r.Valid()
  {
    if q.sub.None? then Outcome(s0, Fail(0x01))
    else
      var s, sub := WithProtocol(s0, q), q.sub.value;
      if sub != 1 && s.proto != 1 && s.proto != 2 then Outcome(s, Fail(0x2B))
      else if sub == 1 then Outcome(s, if s.pin.None? then Fail(0x35) else Retries(s.pin.value.retries))
      else if sub == 2 then Outcome(s.(keyed := true, hasToken := false), PublicKey)
      else if NeedsKey(sub) then Keyed(s, q, sub, r)
      else Outcome(s, Fail(0x01))
  }

  /** The device: its globals, and the PIN page. */
  class Device {
    const store: PinStore
    var proto: nat
    var keyed: bool
    var hasToken: bool
    var token: seq<byte>
    var tokenLen: nat
    var sharedSecret: seq<byte>
    var hmacKey: seq<byte>

    ghost predicate Valid()
      reads this
    {
      store.Valid() && |sharedSecret| == 32 && |hmacKey| == 32
    }

    ghost function View(): State
      requires store.Valid()
      reads this, store.memory.pages
    {
      State(proto, keyed, hasToken, token, tokenLen, store.Pin())
    }

    constructor (store: PinStore)
      requires store.Valid()
      ensures Valid() && this.store == store && View() == State(1, false, false, Zeros(32), 0, store.Pin())
    {
      this.store := store;
      proto, keyed, hasToken, token, tokenLen := 1, false, false, Zeros(32), 0;
      sharedSecret, hmacKey := Zeros(32), Zeros(32);
    }

    /** The length checks and the MAC of setPIN and changePIN. */
    method CheckAuth(msg: seq<byte>, pinAuth: seq<byte>) returns (ok: bool)
      requires Valid()
      ensures ok == (Auth(proto, hmacKey, msg) == pinAuth)
    {
      hide Hmac;
      var mac := HmacSha256(hmacKey, msg);
      ok := mac[..AuthLen(proto)] == pinAuth;
    }

    /** Lines 214-239, and again 287-307. */
    method StoreNewPin(newPinEnc: seq<byte>) returns (r: Response)
      requires Valid() && |newPinEnc| == SealedLen(proto, 64)
      modifies store.memory.pages
      ensures Valid() && StorePin(old(View()), sharedSecret, newPinEnc) == Outcome(View(), r)
    {
      hide Open, Trimmed, Digest;
      var newPin := OpenMessage(proto, sharedSecret, newPinEnc, 64);
      var pin := TrimPin(newPin);
      if |pin| < 4 {
        return Fail(0x37);
      }
      var hash := DigestOf(pin, []);
      assert pin + [] == pin;
      store.PinSave(hash[..16]);
      r := Done;
    }

    method DoSetPin(q: Request) returns (r: Response)
      requires Valid()
      modifies store.memory.pages
      ensures Valid() && SetPin(old(View()), Keys(hmacKey, sharedSecret), q) == Outcome(View(), r)
    {
      hide Auth, StorePin;
      var pin := store.PinLoad();
      if q.pinAuth.None? {
        return Fail(0x30);
      }
      if pin.Some? {
        return Fail(0x33);
      }
      if q.newPinEnc.None? {
        return Fail(0x01);
      }
      if |q.newPinEnc.value| != SealedLen(proto, 64) || |q.pinAuth.value| != AuthLen(proto) {
        return Fail(0x01);
      }
      var ok := CheckAuth(q.newPinEnc.value, q.pinAuth.value);
      if !ok {
        return Fail(0x33);
      }
      r := StoreNewPin(q.newPinEnc.value);
    }

    method DoChangePin(q: Request) returns (r: Response)
      requires Valid()
      modifies store.memory.pages
      ensures Valid() && ChangePin(old(View()), Keys(hmacKey, sharedSecret), q) == Outcome(View(), r)
    {
      hide Auth, StorePin, Open;
      if q.pinAuth.None? || q.newPinEnc.None? || q.pinHashEnc.None? || |q.pinAuth.value| != AuthLen(proto) {
        return Fail(0x01);
      }
      if |q.newPinEnc.value| != SealedLen(proto, 64) || |q.pinHashEnc.value| != SealedLen(proto, 16) {
        return Fail(0x01);
      }
      var ok := CheckAuth(q.newPinEnc.value + q.pinHashEnc.value, q.pinAuth.value);
      if !ok {
        return Fail(0x33);
      }
      var current := OpenMessage(proto, sharedSecret, q.pinHashEnc.value, 16);
      var pin := store.PinLoad();
      if pin.None? || current != pin.value.hash {
        store.PinDecrementRetries();
        return Fail(0x31);
      }
      r := StoreNewPin(q.newPinEnc.value);
    }

    method DoGetToken(q: Request, sub: nat, rnd: Random) returns (r: Response)
      requires Valid() && rnd.Valid()
      modifies this`token, this`hasToken, this`tokenLen, store.memory.pages
      ensures Valid() && GetToken(old(View()), Keys(hmacKey, sharedSecret), q, sub, rnd) == Outcome(View(), r)
    {
      hide Open, Seal;
      if q.pinHashEnc.None? || |q.pinHashEnc.value| < SealedLen(proto, 16) {
        return Fail(0x93);
      }
      var current := OpenMessage(proto, sharedSecret, q.pinHashEnc.value, 16);
      var pin := store.PinLoad();
      if pin.None? {
        return Fail(0x35);
      }
      if pin.value.retries == 0 {
        return Fail(0x32);
      }
      if current != pin.value.hash {
        store.PinDecrementRetries();
        return Fail(0x31);
      }
      store.PinResetRetries();
      token := rnd.token;
      hasToken := true;
      tokenLen := IssuedLen(proto, sub);
      var sealed := SealMessage(proto, sharedSecret, rnd.iv, token[..tokenLen]);
      r := Token(sealed);
    }

    /** process_client_pin, on a parsed request. */
    method ProcessClientPin(q: Request, rnd: Random) returns (r: Response)
      requires Valid() && rnd.Valid()
      modifies this, store.memory.pages
      ensures Valid() && Step(old(View()), q, rnd) == Outcome(View(), r)
    {
      hide KeysFrom, SetPin, ChangePin, GetToken;
      if q.sub.None? {
        return Fail(0x01);
      }
      if q.proto.Some? {
        proto := q.proto.value;
      }
      var sub := q.sub.value;
      if sub != 1 && proto != 1 && proto != 2 {
        return Fail(0x2B);
      }
      if sub == 1 {
        var pin := store.PinLoad();
        return if pin.None? then Fail(0x35) else Retries(pin.value.retries);
      }
      if sub == 2 {
        keyed, hasToken := true, false;
        return PublicKey;
      }
      if !NeedsKey(sub) || !keyed || q.agreement.NoKey? {
        return Fail(0x01);
      }
      if q.agreement.BadKey? {
        return Fail(0x91);
      }
      var k := DeriveKeys(proto, q.agreement.secret);
      sharedSecret, hmacKey := k.aes, k.mac;
      if sub == 3 {
        r := DoSetPin(q);
      } else if sub == 4 {
        r := DoChangePin(q);
      } else {
        r := DoGetToken(q, sub, rnd);
      }
    }
  }
}
