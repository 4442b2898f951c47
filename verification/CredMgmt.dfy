/** Enumeration of credentials: the commands that walk the store, and the host that lists
    every credential with them. */
module CredMgmt {
  import opened Bytes
  import opened Options
  import opened ResidentKey
  import opened Credentials
  import opened Store
  import PinProtocol

  /** "Passkey RP" and "Passkey Account", shown for missing names. */
  const RP_DEFAULT: seq<byte> := [0x50, 0x61, 0x73, 0x73, 0x6B, 0x65, 0x79, 0x20, 0x52, 0x50]
  const USER_DEFAULT: seq<byte> :=
    [0x50, 0x61, 0x73, 0x73, 0x6B, 0x65, 0x79, 0x20, 0x41, 0x63, 0x63, 0x6F, 0x75, 0x6E, 0x74]

  function Shown(name: seq<byte>, default: seq<byte>): seq<byte> {
    if |name| > 0 then name else default
  }

  /** What the host lists for one credential. */
  datatype Entry = Entry(rpId: seq<byte>, userName: seq<byte>, userId: seq<byte>, credId: seq<byte>)

  /** The relying party id shown: that of its first credential. */
  function RpShown(v: View, h: seq<byte>): seq<byte> {
    var g := Group(v, h, |v|);
    if |g| > 0 then Shown(v[g[0]].value.rpId, RP_DEFAULT) else RP_DEFAULT
  }

  function EntryFor(v: View, i: nat): Entry
    requires i < |v| && v[i].Some?
  {
    var c := v[i].value;
    Entry(RpShown(v, c.rpHash), Shown(c.userName, USER_DEFAULT), c.userId, c.credId)
  }

  lemma Defaults()
    ensures RP_DEFAULT == Ascii("Passkey RP") && USER_DEFAULT == Ascii("Passkey Account")
  {
  }

  function NameOf(c: Credential): seq<byte> {
    if c.rpId == [] then Ascii("Passkey RP") else c.rpId
  }

  /** Slot `j` is the first of its relying party. */
  ghost predicate IsFirstOf(v: View, h: seq<byte>, j: nat) {
    j < |v| && OfRp(v[j], h) && forall k :: 0 <= k < j ==> !OfRp(v[k], h)
  }

  /** What is listed for a credential: its own id, user id and user name, and the name of the
      relying party that the first credential of that party was stored with; missing names
      are made up for. */
  lemma EntryShows(v: View, i: nat)
    requires i < |v| && v[i].Some?
    ensures var e, c := EntryFor(v, i), v[i].value;
      && e.credId == c.credId && e.userId == c.userId
      && e.userName == (if c.userName == [] then Ascii("Passkey Account") else c.userName)
    ensures exists j: nat :: IsFirstOf(v, v[i].value.rpHash, j) && EntryFor(v, i).rpId == NameOf(v[j].value)
  {
    var h := v[i].value.rpHash;
    Defaults();
    FirstOfGroup(v, h, |v|);
    var g := Group(v, h, |v|);
    assert OfRp(v[i], h);
    assert |g| > 0 && IsFirstOf(v, h, g[0]);
  }

  function EntriesFor(v: View, slots: seq<nat>): (r: seq<Entry>)
    requires forall k :: 0 <= k < |slots| ==> slots[k] < |v| && v[slots[k]].Some?
    ensures |r| == |slots| && forall k :: 0 <= k < |slots| ==> r[k] == EntryFor(v, slots[k])
  {
    seq(|slots|, k requires 0 <= k < |slots| => EntryFor(v, slots[k]))
  }

  /** The answers; only the first of an enumeration carries the total. */
  datatype RpReply = RpInfo(rpId: seq<byte>, rpHash: seq<byte>, total: Option<nat>) | NoRp

  datatype CredReply = CredInfo(userName: seq<byte>, userId: seq<byte>, credId: seq<byte>, total: Option<nat>) | NoCred

  function TotalIf(begin: bool, n: nat): Option<nat> {
    if begin then Some(n) else None
  }

  function RpReplyAt(v: View, idx: nat, begin: bool): RpReply {
    var hs := RelyingParties(v, |v|);
    if idx < |hs| then RpInfo(RpShown(v, hs[idx]), hs[idx], TotalIf(begin, |hs|)) else NoRp
  }

  function CredReplyAt(v: View, h: seq<byte>, idx: nat, begin: bool): CredReply {
    var g := Group(v, h, |v|);
    if idx < |g| then
      var c := v[g[idx]].value;
      CredInfo(Shown(c.userName, USER_DEFAULT), c.userId, c.credId, TotalIf(begin, |g|))
    else NoCred
  }

  /** The flags say whether the user was present (1) and verified (4). */
  datatype AssertionReply = Assertion(slot: nat, flags: byte) | NoUser | NoCredentials | Error(code: byte)

  /** What else decides a getAssertion: the outcome of the PIN authentication, the options,
      whether a PIN is set, and whether the user touches the device. */
  datatype Conditions = Conditions(auth: PinProtocol.Verification, uv: bool, up: bool, pinSet: bool, touched: bool)

  /** The walk that getAssertion opens: its relying party, size and position. */
  datatype Walk = Walk(rpHash: seq<byte>, count: nat, idx: nat)

  datatype Walked = Walked(walk: Walk, reply: AssertionReply)

  /** The answer of getAssertion once the credential in `slot` is found. */
  function Asserted(slot: nat, c: Conditions): AssertionReply {
    if c.auth.Refused? then Error(0x33)
    else if c.auth.NotAsked? && c.uv then Error(if c.pinSet then 0x36 else 0x35)
    else if c.up && !c.touched then NoUser
    else Assertion(slot, (if c.up then 1 else 0) + if c.auth.Verified? then 4 else 0)
  }

  /** getAssertion for a relying party alone; the walk is opened before the other tests. */
  function OpenWalk(v: View, w: Walk, h: seq<byte>, c: Conditions): Walked {
    var g := Group(v, h, |v|);
    if |g| == 0 then Walked(w, NoCredentials) else Walked(Walk(h, |g|, 0), Asserted(g[0], c))
  }

  /** What an assertion claims: it is the first credential of the relying party, a verified
      user exactly after a valid authentication, and presence only after a touch. */
  lemma AssertionClaims(v: View, w: Walk, h: seq<byte>, c: Conditions)
    requires OpenWalk(v, w, h, c).reply.Assertion?
    ensures var r := OpenWalk(v, w, h, c).reply;
      && r.slot < |v| && OfRp(v[r.slot], h) && (forall i :: 0 <= i < r.slot ==> !OfRp(v[i], h))
      && (r.flags / 4 == 1 <==> c.auth.Verified?) && (r.flags % 2 == 1 <==> c.up) && (c.up ==> c.touched)
  {
    FirstOfGroup(v, h, |v|);
  }

  /** Which answer a getAssertion gets: none without a credential, then the errors in their
      order, and an assertion exactly if none of them applies. */
  lemma AssertionExactly(v: View, w: Walk, h: seq<byte>, c: Conditions)
    ensures var r := OpenWalk(v, w, h, c).reply;
      if forall i :: 0 <= i < |v| ==> !OfRp(v[i], h) then r == NoCredentials && OpenWalk(v, w, h, c).walk == w
      else if c.auth.Refused? then r == Error(0x33)
      else if c.auth.NotAsked? && c.uv then r == Error(if c.pinSet then 0x36 else 0x35)
      else if c.up && !c.touched then r == NoUser
      else r.Assertion?
  {
    FirstOfGroup(v, h, |v|);
  }

  ghost predicate IsFirst(v: View, h: seq<byte>, g: seq<nat>, n: nat)
    requires n <= |v|
  {
    if |g| == 0 then forall i :: 0 <= i < n ==> !OfRp(v[i], h)
    else g[0] < n && OfRp(v[g[0]], h) && forall i :: 0 <= i < g[0] ==> !OfRp(v[i], h)
  }

  lemma {:induction false} FirstOfGroup(v: View, h: seq<byte>, n: nat)
    requires n <= |v|
    ensures IsFirst(v, h, Group(v, h, n), n)
  {
    if 0 < n {
      FirstOfGroup(v, h, n - 1);
      FirstStep(v, h, Group(v, h, n - 1), n);
    }
  }

  lemma FirstStep(v: View, h: seq<byte>, g: seq<nat>, n: nat)
    requires 0 < n <= |v| && IsFirst(v, h, g, n - 1)
    ensures IsFirst(v, h, g + if OfRp(v[n - 1], h) then [n - 1] else [], n)
  {
    hide OfRp;
  }

  /** getNextAssertion; the position moves before the user is asked. */
  function NextWalk(v: View, w: Walk, touched: bool): Walked {
    if w.count <= w.idx + 1 then Walked(w, NoCredentials)
    else
      var g, w' := Group(v, w.rpHash, |v|), w.(idx := w.idx + 1);
      if |g| <= w'.idx then Walked(w', NoCredentials)
      else Walked(w', if touched then Assertion(g[w'.idx], 1) else NoUser)
  }

  function WalkReplies(v: View, w: Walk, touches: seq<bool>): seq<AssertionReply>
    decreases |touches|
  {
    if |touches| == 0 then []
    else
      var r := NextWalk(v, w, touches[0]);
      [r.reply] + WalkReplies(v, r.walk, touches[1..])
  }

  /** The answer at position `p` of the relying party's credentials. */
  function WalkReply(g: seq<nat>, p: nat, touched: bool): AssertionReply {
    if |g| <= p then NoCredentials else if touched then Assertion(g[p], 1) else NoUser
  }

  /** What the k-th getNextAssertion answers from position `idx`: the credentials of the
      relying party in order, each offered once, and after the last one an error. */
  ghost predicate WalksOnce(g: seq<nat>, idx: nat, touches: seq<bool>, replies: seq<AssertionReply>) {
    && |replies| == |touches|
    && forall k :: 0 <= k < |touches| ==>
         replies[k] == WalkReply(g, idx + k + 1, touches[k])
  }

  /** One answer; once past the last credential, the walk stays there. */
  lemma FirstOfWalk(v: View, w: Walk, touched: bool)
    requires w.count == |Group(v, w.rpHash, |v|)|
    ensures var g, r := Group(v, w.rpHash, |v|), NextWalk(v, w, touched);
      && r.reply == WalkReply(g, w.idx + 1, touched) && r.walk.rpHash == w.rpHash && r.walk.count == w.count
      && r.walk.idx == if w.idx + 1 < |g| then w.idx + 1 else w.idx
  {
    hide Group;
  }

  lemma {:induction false} WalkVisitsEachOnce(v: View, w: Walk, touches: seq<bool>)
    requires w.count == |Group(v, w.rpHash, |v|)|
    ensures WalksOnce(Group(v, w.rpHash, |v|), w.idx, touches, WalkReplies(v, w, touches))
    decreases |touches|
  {
    hide Group;
    if 0 < |touches| {
      FirstOfWalk(v, w, touches[0]);
      var g, r := Group(v, w.rpHash, |v|), NextWalk(v, w, touches[0]);
      var rest := WalkReplies(v, r.walk, touches[1..]);
      WalkVisitsEachOnce(v, r.walk, touches[1..]);
      forall k | 0 < k < |touches|
        ensures ([r.reply] + rest)[k] == WalkReply(g, w.idx + k + 1, touches[k])
      {
        assert ([r.reply] + rest)[k] == rest[k - 1] && touches[1..][k - 1] == touches[k];
      }
    }
  }

  class Authenticator {
    const store: PasskeyStore
    var enumRpIdx: nat
    var enumRpHash: seq<byte>
    var enumCredIdx: nat
    var walk: Walk

    constructor (store: PasskeyStore)
      ensures this.store == store
    {
      this.store := store;
      enumRpIdx, enumCredIdx := 0, 0;
      enumRpHash := seq(32, i => 0);
      walk := Walk(seq(32, i => 0), 0, 0);
    }

    /** Subcommands 0x02 and 0x03. */
    method EnumerateRps(begin: bool) returns (r: RpReply)
      requires store.Valid()
      modifies this`enumRpIdx, this`enumRpHash
      ensures enumRpIdx == if begin then 0 else old(enumRpIdx) + 1
      ensures r == RpReplyAt(store.Contents(), enumRpIdx, begin)
      ensures enumRpHash == if r.RpInfo? then r.rpHash else old(enumRpHash)
    {
      hide RelyingParties, Group, Nth;
      enumRpIdx := if begin then 0 else enumRpIdx + 1;
      var total := store.CountUniqueRps();
      if total == 0 || enumRpIdx >= total {
        return NoRp;
      }
      var ok, h := store.GetUniqueRpHash(enumRpIdx);
      enumRpHash := h;
      var k := store.GetByRpIndex(h, 0);
      ghost var v := store.Contents();
      NthOfGroup(v, h, 0);
      var shown := if k >= 0 then Shown(Parse(store.memory.pages[k]).rpId, RP_DEFAULT) else RP_DEFAULT;
      assert k >= 0 ==> v[k] == Slot(store.memory.pages[k]);
      r := RpInfo(shown, h, TotalIf(begin, total));
    }

    /** Subcommands 0x04, which may name the relying party, and 0x05. */
    method EnumerateCredentials(begin: bool, rph: Option<seq<byte>>) returns (r: CredReply)
      requires store.Valid()
      modifies this`enumRpHash, this`enumCredIdx
      ensures enumRpHash == if begin && rph.Some? && |rph.value| >= 32 then rph.value[..32] else old(enumRpHash)
      ensures enumCredIdx == if begin then 0 else old(enumCredIdx) + 1
      ensures r == CredReplyAt(store.Contents(), enumRpHash, enumCredIdx, begin)
    {
      hide Group, Nth;
      if begin {
        if rph.Some? && |rph.value| >= 32 {
          enumRpHash := rph.value[..32];
        }
        enumCredIdx := 0;
      } else {
        enumCredIdx := enumCredIdx + 1;
      }
      var total := store.CountForRp(enumRpHash);
      var k := store.GetByRpIndex(enumRpHash, enumCredIdx);
      ghost var v := store.Contents();
      NthOfGroup(v, enumRpHash, enumCredIdx);
      if k < 0 || total == 0 || enumCredIdx >= total {
        return NoCred;
      }
      assert v[k] == Slot(store.memory.pages[k]);
      var c := Parse(store.memory.pages[k]);
      r := CredInfo(Shown(c.userName, USER_DEFAULT), c.userId, c.credId, TotalIf(begin, total));
    }

    /** Lines 890-904 and 939-996: getAssertion without an allow list. */
    method GetAssertion(h: seq<byte>, c: Conditions) returns (r: AssertionReply)
      requires store.Valid()
      modifies this`walk
      ensures OpenWalk(store.Contents(), old(walk), h, c) == Walked(walk, r)
    {
      hide Group, Nth;
      var n := store.CountForRp(h);
      var k := store.GetByRpIndex(h, 0);
      NthOfGroup(store.Contents(), h, 0);
      if k < 0 || n == 0 {
        return NoCredentials;
      }
      walk := Walk(h, n, 0);
      var flags := 1;
      match c.auth {
        case Refused => return Error(0x33);
        case Verified => flags := flags + 4;
        case NotAsked =>
          if c.uv {
            return Error(if c.pinSet then 0x36 else 0x35);
          }
      }
      if c.up {
        if !c.touched {
          return NoUser;
        }
      } else {
        flags := flags - 1;
      }
      r := Assertion(k, flags);
    }

    /** Lines 1009-1029. */
    method GetNextAssertion(touched: bool) returns (r: AssertionReply)
      requires store.Valid()
      modifies this`walk
      ensures NextWalk(store.Contents(), old(walk), touched) == Walked(walk, r)
    {
      hide Group, Nth;
      if walk.count == 0 || walk.idx + 1 >= walk.count {
        return NoCredentials;
      }
      walk := walk.(idx := walk.idx + 1);
      var k := store.GetByRpIndex(walk.rpHash, walk.idx);
      NthOfGroup(store.Contents(), walk.rpHash, walk.idx);
      if k < 0 {
        return NoCredentials;
      }
      r := if touched then Assertion(k, 1) else NoUser;
    }
  }

  lemma NthOfGroup(v: View, h: seq<byte>, target: nat)
    ensures var g := Group(v, h, |v|);
      if target < |g| then 0 <= Nth(g, target) == g[target] < |v| && OfRp(v[g[target]], h) else Nth(g, target) == -1
  {
    hide Group;
  }

  /** The entry the host builds from a relying party reply and a credential reply. */
  lemma EntryBuilt(v: View, i: nat, j: nat)
    requires i < |RelyingParties(v, |v|)| && j < |Group(v, RelyingParties(v, |v|)[i], |v|)|
    ensures var h := RelyingParties(v, |v|)[i]; var g := Group(v, h, |v|);
      var a, c := RpReplyAt(v, i, i == 0), CredReplyAt(v, h, j, j == 0);
      && a == RpInfo(RpShown(v, h), h, TotalIf(i == 0, |RelyingParties(v, |v|)|))
      && c.CredInfo? && c.total == TotalIf(j == 0, |g|)
      && Entry(a.rpId, c.userName, c.userId, c.credId) == EntryFor(v, g[j])
  {
    hide Group, RelyingParties;
  }

  lemma {:induction false} ListingLive(v: View, hs: seq<seq<byte>>)
    ensures forall k :: 0 <= k < |Listing(v, hs, |v|)| ==>
      Listing(v, hs, |v|)[k] < |v| && v[Listing(v, hs, |v|)[k]].Some?
    decreases |hs|
  {
    hide Group;
    if 0 < |hs| {
      ListingLive(v, hs[..|hs| - 1]);
    }
  }

  /** All that list_all reports for the relying parties `hs`. */
  ghost function Report(v: View, hs: seq<seq<byte>>): (r: seq<Entry>)
    ensures |r| == |Listing(v, hs, |v|)|
  {
    ListingLive(v, hs);
    EntriesFor(v, Listing(v, hs, |v|))
  }

  /** The first `j` credentials of one relying party. */
  ghost function ReportOf(v: View, h: seq<byte>, j: nat): (r: seq<Entry>)
    requires j <= |Group(v, h, |v|)|
  {
    EntriesFor(v, Group(v, h, |v|)[..j])
  }

  lemma ReportNextParty(v: View, hs: seq<seq<byte>>, i: nat)
    requires i < |hs|
    ensures Report(v, hs[..i + 1]) == Report(v, hs[..i]) + ReportOf(v, hs[i], |Group(v, hs[i], |v|)|)
  {
    hide Group;
    ListingLive(v, hs[..i]);
    ListingLive(v, hs[..i + 1]);
    assert hs[..i + 1][..i] == hs[..i];
    var g := Group(v, hs[i], |v|);
    assert g[..|g|] == g;
    assert Listing(v, hs[..i + 1], |v|) == Listing(v, hs[..i], |v|) + g;
  }

  lemma ReportNextEntry(v: View, h: seq<byte>, j: nat)
    requires j < |Group(v, h, |v|)|
    ensures ReportOf(v, h, j + 1) == ReportOf(v, h, j) + [EntryFor(v, Group(v, h, |v|)[j])]
  {
    hide Group;
  }

  /** A total in an answer, and 0 if it has none. */
  function Number(total: Option<nat>): nat {
    if total.Some? then total.value else 0
  }

  /** The inner loop of list_all: the credentials of one relying party. */
  method ListParty(dev: Authenticator, rpId: seq<byte>, rph: seq<byte>, ghost i: nat) returns (out: seq<Entry>)
    requires dev.store.Valid()
    requires var v := dev.store.Contents(); var hs := RelyingParties(v, |v|);
      i < |hs| && rph == hs[i] && |rph| == 32 && rpId == RpShown(v, rph)
    modifies dev`enumRpHash, dev`enumCredIdx
    ensures var v := dev.store.Contents(); out == ReportOf(v, rph, |Group(v, rph, |v|)|)
  {
    hide Group, RelyingParties, EntryFor, RpShown;
    ghost var v := dev.store.Contents();
    out := [];
    var creds := dev.EnumerateCredentials(true, Some(rph));
    assert rph[..32] == rph;
    if creds.NoCred? {
      assert |Group(v, rph, |v|)| == 0;
      return;
    }
    var n := Number(creds.total);
    for j := 0 to n
      invariant n == |Group(v, rph, |v|)| && dev.store.Contents() == v && dev.store.Valid()
      invariant dev.enumRpHash == rph && (j == 0 ==> dev.enumCredIdx == 0) && (j > 0 ==> dev.enumCredIdx == j - 1)
      invariant j == 0 ==> creds == CredReplyAt(v, rph, 0, true)
      invariant out == ReportOf(v, rph, j)
    {
      if j > 0 {
        creds := dev.EnumerateCredentials(false, Some(rph));
        if creds.NoCred? {
          return;
        }
      }
      EntryBuilt(v, i, j);
      ReportNextEntry(v, rph, j);
      out := out + [Entry(rpId, creds.userName, creds.userId, creds.credId)];
    }
  }

  lemma {:induction false} HashLength(v: View, n: nat)
    requires n <= |v| && forall i :: 0 <= i < |v| && v[i].Some? ==> |v[i].value.rpHash| == 32
    ensures forall t :: 0 <= t < |RelyingParties(v, n)| ==> |RelyingParties(v, n)[t]| == 32
  {
    if 0 < n {
      HashLength(v, n - 1);
    }
  }

  /** list_all of key_manager.py, on a store that does not change meanwhile. */
  method ListAll(dev: Authenticator) returns (out: seq<Entry>)
    requires dev.store.Valid()
    modifies dev`enumRpIdx, dev`enumRpHash, dev`enumCredIdx
    ensures var v := dev.store.Contents(); out == Report(v, RelyingParties(v, |v|))
  {
    hide Group, RelyingParties, RpShown, Report;
    ghost var v := dev.store.Contents();
    ghost var hs := RelyingParties(v, |v|);
    HashLength(v, |v|);
    NothingReported(v, hs);
    out := [];
    var rps := dev.EnumerateRps(true);
    if rps.NoRp? {
      return;
    }
    var total := Number(rps.total);
    for i := 0 to total
      invariant total == |hs| && dev.store.Contents() == v && dev.store.Valid()
      invariant (i == 0 ==> dev.enumRpIdx == 0 && rps == RpReplyAt(v, 0, true)) && (i > 0 ==> dev.enumRpIdx == i - 1)
      invariant out == Report(v, hs[..i])
    {
      if i > 0 {
        rps := dev.EnumerateRps(false);
        if rps.NoRp? {
          return;
        }
      }
      var party := ListParty(dev, rps.rpId, rps.rpHash, i);
      ReportNextParty(v, hs, i);
      out := out + party;
    }
    assert hs[..total] == hs;
  }

  lemma NothingReported(v: View, hs: seq<seq<byte>>)
    ensures Report(v, hs[..0]) == [] && (|hs| == 0 ==> hs[..0] == hs)
  {
  }

  /** Each credential appears in the report exactly once, with its own data. */
  lemma ReportListsEachOnce(v: View, i: nat)
    ensures var hs := RelyingParties(v, |v|); var slots := Listing(v, hs, |v|);
      && |Report(v, hs)| == |slots|
      && (forall k :: 0 <= k < |slots| ==>
            slots[k] < |v| && v[slots[k]].Some? && Report(v, hs)[k] == EntryFor(v, slots[k]))
      && multiset(slots)[i] == if i < |v| && v[i].Some? then 1 else 0
  {
    hide Group, RelyingParties, EntryFor;
    ListingLive(v, RelyingParties(v, |v|));
    ListedOnce(v, i);
  }
}
