/** The credential store as a sequence of slots: accounts, relying parties, and the orders
    in which they are enumerated. */
module Credentials {
  import opened Bytes
  import opened Options
  import opened ResidentKey

  type View = seq<Option<Credential>>

  /** The slots of the first `n` that hold a credential. */
  function AllLive(v: View, n: nat): (r: seq<nat>)
    requires n <= |v|
    ensures |r| <= n
    ensures forall k :: 0 <= k < |r| ==> r[k] < n && v[r[k]].Some?
  {
    if n == 0 then []
    else AllLive(v, n - 1) + if v[n - 1].Some? then [n - 1] else []
  }

  predicate OfRp(x: Option<Credential>, h: seq<byte>) {
    x.Some? && x.value.rpHash == h
  }

  /** The slots of the first `n` that belong to relying party `h`, in order. */
  function Group(v: View, h: seq<byte>, n: nat): (r: seq<nat>)
    requires n <= |v|
    ensures |r| <= n
    ensures forall k :: 0 <= k < |r| ==> r[k] < n && OfRp(v[r[k]], h)
  {
    if n == 0 then []
    else Group(v, h, n - 1) + if OfRp(v[n - 1], h) then [n - 1] else []
  }

  /** The first slot of its relying party. */
  predicate Leads(v: View, i: nat)
    requires i < |v|
  {
    v[i].Some? && forall j :: 0 <= j < i ==> !OfRp(v[j], v[i].value.rpHash)
  }

  /** The relying parties of the first `n` slots, by first appearance. */
  function RelyingParties(v: View, n: nat): (r: seq<seq<byte>>)
    requires n <= |v|
    ensures |r| <= n
    ensures forall i :: 0 <= i < n && v[i].Some? ==> v[i].value.rpHash in r
  {
    if n == 0 then []
    else
      var before := RelyingParties(v, n - 1);
      assert v[n - 1].Some? ==> Leads(v, n - 1) || v[n - 1].value.rpHash in before by {
        if v[n - 1].Some? && !Leads(v, n - 1) {
          var j: nat :| j < n - 1 && OfRp(v[j], v[n - 1].value.rpHash);
        }
      }
      before + if Leads(v, n - 1) then [v[n - 1].value.rpHash] else []
  }

  ghost predicate Distinct(hs: seq<seq<byte>>) {
    forall a, b :: 0 <= a < b < |hs| ==> hs[a] != hs[b]
  }

  lemma {:induction false} RelyingPartiesDistinct(v: View, n: nat)
    requires n <= |v|
    ensures Distinct(RelyingParties(v, n))
    ensures forall h :: h in RelyingParties(v, n) ==> exists i :: 0 <= i < n && OfRp(v[i], h)
  {
    if 0 < n {
      RelyingPartiesDistinct(v, n - 1);
      forall h | h in RelyingParties(v, n) ensures exists i :: 0 <= i < n && OfRp(v[i], h) {
        if h in RelyingParties(v, n - 1) {
          var i :| 0 <= i < n - 1 && OfRp(v[i], h);
        } else {
          assert OfRp(v[n - 1], h);
        }
      }
    }
  }

  /** The groups of the relying parties `hs`, one after the other. */
  function Listing(v: View, hs: seq<seq<byte>>, n: nat): seq<nat>
    requires n <= |v|
  {
    if |hs| == 0 then []
    else Listing(v, hs[..|hs| - 1], n) + Group(v, hs[|hs| - 1], n)
  }

  lemma {:induction false} NothingListed(v: View, hs: seq<seq<byte>>)
    ensures Listing(v, hs, 0) == []
    decreases |hs|
  {
    if 0 < |hs| {
      NothingListed(v, hs[..|hs| - 1]);
    }
  }

  /** One more slot joins the group of its relying party, if that is among `hs`. */
  lemma {:induction false} OneMoreSlot(v: View, hs: seq<seq<byte>>, n: nat)
    requires n < |v| && Distinct(hs)
    ensures multiset(Listing(v, hs, n + 1))
         == multiset(Listing(v, hs, n)) + (if v[n].Some? && v[n].value.rpHash in hs then multiset{n} else multiset{})
    decreases |hs|
  {
    if 0 < |hs| {
      var k := |hs| - 1;
      assert hs == hs[..k] + [hs[k]];
      OneMoreSlot(v, hs[..k], n);
    }
  }

  lemma LiveStep(v: View, n: nat)
    requires n <= |v|
    ensures multiset(AllLive(v, n))
         == if n == 0 then multiset{}
            else multiset(AllLive(v, n - 1)) + (if v[n - 1].Some? then multiset{n - 1} else multiset{})
  {
  }

  lemma {:induction false} LiveOnce(v: View, n: nat, i: nat)
    requires n <= |v|
    ensures multiset(AllLive(v, n))[i] == if i < n && v[i].Some? then 1 else 0
  {
    hide AllLive;
    LiveStep(v, n);
    if 0 < n {
      LiveOnce(v, n - 1, i);
    }
  }

  /** Group by group, every credential is listed exactly once. */
  lemma {:induction false} ListingIsComplete(v: View, n: nat)
    requires n <= |v|
    ensures multiset(Listing(v, RelyingParties(v, |v|), n)) == multiset(AllLive(v, n))
  {
    hide Listing, RelyingParties, AllLive;
    var hs := RelyingParties(v, |v|);
    RelyingPartiesDistinct(v, |v|);
    LiveStep(v, n);
    if n == 0 {
      NothingListed(v, hs);
    } else {
      ListingIsComplete(v, n - 1);
      OneMoreSlot(v, hs, n - 1);
    }
  }

  lemma ListedOnce(v: View, i: nat)
    ensures multiset(Listing(v, RelyingParties(v, |v|), |v|))[i] == if i < |v| && v[i].Some? then 1 else 0
  {
    ListingIsComplete(v, |v|);
    LiveOnce(v, |v|, i);
  }

  /** How many credentials the relying parties `hs` have together. */
  function TotalFor(v: View, hs: seq<seq<byte>>): nat {
    if |hs| == 0 then 0 else TotalFor(v, hs[..|hs| - 1]) + |Group(v, hs[|hs| - 1], |v|)|
  }

  lemma {:induction false} TotalIsListed(v: View, hs: seq<seq<byte>>)
    ensures TotalFor(v, hs) == |Listing(v, hs, |v|)|
    decreases |hs|
  {
    if 0 < |hs| {
      TotalIsListed(v, hs[..|hs| - 1]);
    }
  }

  /** The counts per relying party, summed over the relying parties, give the number of
      credentials. */
  lemma CountsAddUp(v: View)
    ensures TotalFor(v, RelyingParties(v, |v|)) == |AllLive(v, |v|)|
  {
    TotalIsListed(v, RelyingParties(v, |v|));
    ListingIsComplete(v, |v|);
    assert |multiset(AllLive(v, |v|))| == |multiset(Listing(v, RelyingParties(v, |v|), |v|))|;
  }

  /** The slot for a new credential: that of the same account if there is one, or else the
      first empty one; -1 if the store is full. */
  ghost predicate Chosen(v: View, c: Credential, k: int) {
    if exists j :: 0 <= j < |v| && IsAccount(v[j], c)
    then 0 <= k < |v| && IsAccount(v[k], c) && forall j :: 0 <= j < k ==> !IsAccount(v[j], c)
    else if exists j :: 0 <= j < |v| && v[j] == None
    then 0 <= k < |v| && v[k] == None && forall j :: 0 <= j < k ==> v[j] != None
    else k == -1
  }

  /** At most one credential for each account. */
  ghost predicate OnePerAccount(v: View) {
    forall i, j :: 0 <= i < j < |v| && v[i].Some? ==> !IsAccount(v[j], v[i].value)
  }

  lemma SaveKeepsOnePerAccount(v: View, c: Credential, k: int)
    requires c.Given() && |c.userId| <= 64 && Chosen(v, c, k) && 0 <= k
    requires OnePerAccount(v)
    ensures OnePerAccount(v[k := Some(c.Cut())])
  {
    var w := v[k := Some(c.Cut())];
    forall j | 0 <= j < |v| && j != k ensures !IsAccount(v[j], c) {
    }
  }

  /** A user id of more than 64 bytes is cut when it is stored, so it never matches: saving
      such an account again takes another slot. */
  lemma LongUserIdsDuplicate(v: View, c: Credential, k: int, k': int)
    requires c.Given() && 64 < |c.userId| && (forall i :: 0 <= i < |v| && v[i].Some? ==> |v[i].value.userId| <= 64)
    requires Chosen(v, c, k) && 0 <= k && Chosen(v[k := Some(c.Cut())], c, k') && 0 <= k'
    ensures k != k' && !OnePerAccount(v[k := Some(c.Cut())][k' := Some(c.Cut())])
  {
    var w := v[k := Some(c.Cut())];
    var u := w[k' := Some(c.Cut())];
    assert forall j :: 0 <= j < |v| ==> !IsAccount(v[j], c);
    assert forall j :: 0 <= j < |w| ==> !IsAccount(w[j], c);
    assert w[k'] == None;
    assert IsAccount(u[k], c.Cut()) && IsAccount(u[k'], c.Cut());
    assert k < k' && u[k].Some? && IsAccount(u[k'], u[k].value);
  }

  datatype Operation = Save(c: Credential) | Delete(credId: seq<byte>) | Reset

  /** The first credential with the given id. */
  ghost predicate FirstWithId(v: View, id: seq<byte>, k: int) {
    if exists j :: 0 <= j < |v| && v[j].Some? && v[j].value.credId == id
    then 0 <= k < |v| && v[k].Some? && v[k].value.credId == id
         && forall j :: 0 <= j < k && v[j].Some? ==> v[j].value.credId != id
    else k == -1
  }

  function AllEmpty(n: nat): View {
    seq(n, i => None)
  }

  ghost predicate Performs(v: View, op: Operation, w: View) {
    match op
    case Save(c) =>
      c.Given() && exists k :: Chosen(v, c, k) && w == if k < 0 then v else v[k := Some(c.Cut())]
    case Delete(id) => exists k :: FirstWithId(v, id, k) && w == if k < 0 then v else v[k := None]
    case Reset => w == AllEmpty(|v|)
  }

  /** Any sequence of operations, from an empty store. */
  ghost predicate IsRun(vs: seq<View>, ops: seq<Operation>) {
    && |vs| == |ops| + 1 && vs[0] == AllEmpty(|vs[0]|)
    && forall i :: 0 <= i < |ops| ==> Performs(vs[i], ops[i], vs[i + 1])
  }

  ghost predicate ShortUserIds(ops: seq<Operation>) {
    forall i :: 0 <= i < |ops| && ops[i].Save? ==> |ops[i].c.userId| <= 64
  }

  lemma StepKeepsOnePerAccount(v: View, op: Operation, w: View)
    requires Performs(v, op, w) && OnePerAccount(v) && (op.Save? ==> |op.c.userId| <= 64)
    ensures OnePerAccount(w)
  {
    match op {
      case Save(c) =>
        var k :| Chosen(v, c, k) && w == if k < 0 then v else v[k := Some(c.Cut())];
        if 0 <= k {
          SaveKeepsOnePerAccount(v, c, k);
        }
      case Delete(id) =>
      case Reset =>
    }
  }

  /** As long as user ids fit their field, no run stores an account twice. */
  lemma {:induction false} RunsKeepOnePerAccount(vs: seq<View>, ops: seq<Operation>, i: nat)
    requires IsRun(vs, ops) && ShortUserIds(ops) && i < |vs|
    ensures OnePerAccount(vs[i])
  {
    if 0 < i {
      RunsKeepOnePerAccount(vs, ops, i - 1);
      StepKeepsOnePerAccount(vs[i - 1], ops[i - 1], vs[i]);
    }
  }
}
