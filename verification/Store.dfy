/** The credential store in flash: one page per slot, and the PIN page after them. */
module Store {
  import opened Bytes
  import opened Options
  import opened Flash
  import opened ResidentKey
  import opened Credentials

  function ViewOf(ps: seq<Page>): (v: View)
    ensures |v| == |ps| && forall i :: 0 <= i < |ps| ==> v[i] == Slot(ps[i])
  {
    seq(|ps|, i requires 0 <= i < |ps| => Slot(ps[i]))
  }

  lemma ViewUpdated(ps: seq<Page>, k: nat, p: Page)
    requires k < |ps|
    ensures ViewOf(ps[k := p]) == ViewOf(ps)[k := Slot(p)]
  {
  }

  ghost predicate AllWhole(ps: seq<Page>) {
    forall i :: 0 <= i < |ps| ==> Whole(ps[i])
  }

  class PasskeyStore {
    const memory: Memory
    const slots: nat

    ghost predicate Valid()
      reads memory.pages
    {
      memory.pages.Length == slots + 1 && AllWhole(memory.pages[..slots])
    }

    ghost function Contents(): View
      requires memory.pages.Length == slots + 1
      reads memory.pages
    {
      ViewOf(memory.pages[..slots])
    }

    constructor (n: nat)
      ensures Valid() && slots == n && fresh(memory) && fresh(memory.pages)
      ensures Contents() == AllEmpty(n)
    {
      slots := n;
      memory := new Memory(n + 1);
      new;
      for i := 0 to n + 1
        invariant fresh(memory) && fresh(memory.pages) && memory.pages.Length == n + 1
        invariant forall j :: 0 <= j < i ==> memory.pages[j] == Erased()
      {
        memory.ErasePage(i);
      }
      AllErased(memory.pages[..n]);
    }

    /** Lines 63-77. */
    method FindSlot(c: Credential) returns (k: int)
      requires Valid() && c.Given()
      ensures Chosen(Contents(), c, k)
    {
      hide Slot, Whole, SameAccount, Empty;
      k := -1;
      for i := 0 to slots
        invariant forall j :: 0 <= j < i ==> !IsAccount(Contents()[j], c)
        invariant if k == -1 then forall j :: 0 <= j < i ==> Contents()[j] != None
          else 0 <= k < i && Contents()[k] == None && forall j :: 0 <= j < k ==> Contents()[j] != None
      {
        var p := memory.pages[i];
        assert Whole(memory.pages[..slots][i]) && Contents()[i] == Slot(p);
        WholeSlot(p);
        AccountReads(p, c);
        EmptySlot(p);
        if Empty(p) {
          if k == -1 {
            k := i;
          }
        } else if SameAccount(p, c) {
          return i;
        }
      }
    }

    /** passkey_save: at most one page changes, and it holds the new record. */
    method Save(c: Credential) returns (ok: bool, ghost k: int)
      requires Valid() && c.Given()
      modifies memory.pages
      ensures Valid() && Chosen(old(Contents()), c, k) && ok == (0 <= k)
      ensures memory.pages[..] == if ok then old(memory.pages[..])[k := Layout(c.Cut())] else old(memory.pages[..])
      ensures Contents() == if ok then old(Contents())[k := Some(c.Cut())] else old(Contents())
    {
      hide Layout, Chosen, Parse, Live, Credential.Cut;
      var slot := FindSlot(c);
      k := slot;
      ChosenInRange(Contents(), c, k);
      if slot == -1 {
        return false, k;
      }
      ghost var was := memory.pages[..];
      memory.WritePage(slot, Layout(c.Cut()));
      assert memory.pages[..slots] == was[..slots][slot := Layout(c.Cut())];
      ParseLayout(c.Cut());
      assert Whole(Layout(c.Cut()));
      ViewUpdated(was[..slots], slot, Layout(c.Cut()));
      ok := true;
    }

    /** passkey_delete_by_cred_id: the page of the first such credential is erased. */
    method Delete(id: seq<byte>) returns (ok: bool, ghost k: int)
      requires Valid() && |id| == 32
      modifies memory.pages
      ensures Valid() && FirstWithId(old(Contents()), id, k) && ok == (0 <= k)
      ensures memory.pages[..] == if ok then old(memory.pages[..])[k := Erased()] else old(memory.pages[..])
      ensures Contents() == if ok then old(Contents())[k := None] else old(Contents())
    {
      ghost var was := memory.pages[..];
      for i := 0 to slots
        invariant memory.pages[..] == was
        invariant forall j :: 0 <= j < i ==> !HasId(was[..slots][j], id)
      {
        var p := memory.pages[i];
        assert p == was[..slots][i];
        if Live(p) && CredId(p) == id {
          FirstIdFound(was[..slots], id, i);
          memory.ErasePage(i);
          assert memory.pages[..slots] == was[..slots][i := Erased()];
          WholeSlot(Erased());
          ViewUpdated(was[..slots], i, Erased());
          return true, i;
        }
      }
      NoIdFound(was[..slots], id);
      return false, -1;
    }

    /** flash_factory_reset: the slots and the PIN page. */
    method FactoryReset()
      requires Valid()
      modifies memory.pages
      ensures Valid() && Contents() == AllEmpty(slots)
      ensures forall i :: 0 <= i <= slots ==> memory.pages[i] == Erased()
    {
      for i := 0 to slots + 1
        invariant forall j :: 0 <= j < i ==> memory.pages[j] == Erased()
      {
        memory.ErasePage(i);
      }
      AllErased(memory.pages[..slots]);
    }

    method CountAll() returns (count: nat)
      requires Valid()
      ensures count == |AllLive(Contents(), slots)|
    {
      count := 0;
      for i := 0 to slots
        invariant count == |AllLive(Contents(), i)|
      {
        assert Contents()[i] == Slot(memory.pages[i]);
        if Live(memory.pages[i]) {
          count := count + 1;
        }
      }
    }

    method CountForRp(h: seq<byte>) returns (count: nat)
      requires Valid()
      ensures count == |Group(Contents(), h, slots)|
    {
      count := 0;
      for i := 0 to slots
        invariant count == |Group(Contents(), h, i)|
      {
        assert Contents()[i] == Slot(memory.pages[i]);
        if Live(memory.pages[i]) && RpHash(memory.pages[i]) == h {
          count := count + 1;
        }
      }
    }

    /** passkey_get_by_rp_index: the slot, or -1. */
    method GetByRpIndex(h: seq<byte>, target: nat) returns (k: int)
      requires Valid()
      ensures k == Nth(Group(Contents(), h, slots), target)
    {
      hide Group, Nth;
      ghost var v := Contents();
      var idx := 0;
      GroupStarts(v, h);
      for i := 0 to slots
        invariant idx == |Group(v, h, i)| <= target
      {
        assert v[i] == Slot(memory.pages[i]);
        GroupStep(v, h, i);
        if Live(memory.pages[i]) && RpHash(memory.pages[i]) == h {
          if idx == target {
            GroupAt(v, h, i);
            return i;
          }
          idx := idx + 1;
        }
      }
      k := -1;
      NthBeyond(Group(v, h, slots), target);
    }

    /** Lines 230-239, and again 253-262: no earlier slot has the same relying party. */
    method IsFirstOfRp(i: nat) returns (unique: bool)
      requires Valid() && i < slots && Live(memory.pages[i])
      ensures unique == Leads(Contents(), i)
    {
      assert Contents()[i] == Slot(memory.pages[i]);
      for j := 0 to i
        invariant forall l :: 0 <= l < j ==> !OfRp(Contents()[l], RpHash(memory.pages[i]))
      {
        assert Contents()[j] == Slot(memory.pages[j]);
        if Live(memory.pages[j]) && RpHash(memory.pages[j]) == RpHash(memory.pages[i]) {
          return false;
        }
      }
      unique := true;
    }

    method CountUniqueRps() returns (count: nat)
      requires Valid()
      ensures count == |RelyingParties(Contents(), slots)|
    {
      count := 0;
      for i := 0 to slots
        invariant count == |RelyingParties(Contents(), i)|
      {
        assert Contents()[i] == Slot(memory.pages[i]);
        if Live(memory.pages[i]) {
          var unique := IsFirstOfRp(i);
          if unique {
            count := count + 1;
          }
        }
      }
    }

    /** passkey_get_unique_rp_hash */
    method GetUniqueRpHash(target: nat) returns (ok: bool, h: seq<byte>)
      requires Valid()
      ensures var hs := RelyingParties(Contents(), slots); ok == (target < |hs|) && (ok ==> h == hs[target])
    {
      hide RelyingParties, Leads;
      ghost var v := Contents();
      var count := 0;
      PartiesStart(v);
      for i := 0 to slots
        invariant count == |RelyingParties(v, i)| <= target
      {
        assert v[i] == Slot(memory.pages[i]);
        PartiesStep(v, i);
        if Live(memory.pages[i]) {
          var unique := IsFirstOfRp(i);
          if unique {
            if count == target {
              RelyingPartyAt(v, i);
              return true, RpHash(memory.pages[i]);
            }
            count := count + 1;
          }
        }
      }
      return false, [];
    }
  }

  /** An element of a list of slots, or -1 beyond its end. */
  function Nth(g: seq<nat>, target: nat): int {
    if target < |g| then g[target] else -1
  }

  lemma NthBeyond(g: seq<nat>, target: nat)
    requires |g| <= target
    ensures Nth(g, target) == -1
  {
  }

  lemma GroupStarts(v: View, h: seq<byte>)
    ensures |Group(v, h, 0)| == 0
  {
  }

  lemma GroupStep(v: View, h: seq<byte>, i: nat)
    requires i < |v|
    ensures |Group(v, h, i + 1)| == |Group(v, h, i)| + if OfRp(v[i], h) then 1 else 0
  {
  }

  lemma PartiesStart(v: View)
    ensures |RelyingParties(v, 0)| == 0
  {
  }

  lemma PartiesStep(v: View, i: nat)
    requires i < |v|
    ensures |RelyingParties(v, i + 1)| == |RelyingParties(v, i)| + if Leads(v, i) then 1 else 0
    ensures Leads(v, i) ==> v[i].Some?
  {
  }

  predicate HasId(p: Page, id: seq<byte>) {
    Live(p) && CredId(p) == id
  }

  lemma AllErased(ps: seq<Page>)
    requires forall i :: 0 <= i < |ps| ==> ps[i] == Erased()
    ensures AllWhole(ps) && ViewOf(ps) == AllEmpty(|ps|)
  {
    WholeSlot(Erased());
  }

  lemma EmptySlot(p: Page)
    requires Whole(p)
    ensures Empty(p) == (Slot(p) == None)
  {
    WholeSlot(p);
  }

  lemma ChosenInRange(v: View, c: Credential, k: int)
    requires Chosen(v, c, k)
    ensures -1 <= k < |v|
  {
  }

  lemma FirstIdFound(ps: seq<Page>, id: seq<byte>, k: nat)
    requires k < |ps| && HasId(ps[k], id) && forall j :: 0 <= j < k ==> !HasId(ps[j], id)
    ensures FirstWithId(ViewOf(ps), id, k)
  {
    var v := ViewOf(ps);
    assert v[k].Some? && v[k].value.credId == id;
    forall j | 0 <= j < k && v[j].Some? ensures v[j].value.credId != id {
      assert !HasId(ps[j], id);
    }
  }

  lemma NoIdFound(ps: seq<Page>, id: seq<byte>)
    requires forall j :: 0 <= j < |ps| ==> !HasId(ps[j], id)
    ensures FirstWithId(ViewOf(ps), id, -1)
  {
    var v := ViewOf(ps);
    forall j | 0 <= j < |v| && v[j].Some? ensures v[j].value.credId != id {
      assert !HasId(ps[j], id);
    }
  }

  lemma {:induction false} GroupGrows(v: View, h: seq<byte>, m: nat, n: nat)
    requires m <= n <= |v|
    ensures Group(v, h, m) <= Group(v, h, n)
    decreases n
  {
    if m < n {
      GroupGrows(v, h, m, n - 1);
    }
  }

  lemma {:induction false} RelyingPartiesGrow(v: View, m: nat, n: nat)
    requires m <= n <= |v|
    ensures RelyingParties(v, m) <= RelyingParties(v, n)
    decreases n
  {
    if m < n {
      RelyingPartiesGrow(v, m, n - 1);
    }
  }

  lemma GroupAt(v: View, h: seq<byte>, i: nat)
    requires i < |v| && OfRp(v[i], h)
    ensures Nth(Group(v, h, |v|), |Group(v, h, i)|) == i
  {
    GroupGrows(v, h, i + 1, |v|);
    assert Group(v, h, i + 1) == Group(v, h, i) + [i];
  }

  lemma RelyingPartyAt(v: View, i: nat)
    requires i < |v| && Leads(v, i)
    ensures var t := |RelyingParties(v, i)|;
      t < |RelyingParties(v, |v|)| && RelyingParties(v, |v|)[t] == v[i].value.rpHash
  {
    RelyingPartiesGrow(v, i + 1, |v|);
    assert RelyingParties(v, i + 1) == RelyingParties(v, i) + [v[i].value.rpHash];
  }
}
