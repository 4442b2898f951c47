/** The PIN record in flash. */
module PinPage {
  import opened Bytes
  import opened Flash
  import opened Options

  datatype PinState = PinState(hash: seq<byte>, retries: nat)

  /** The characters PINP, lowest byte first. */
  const PIN_MAGIC: seq<byte> := [0x50, 0x4E, 0x49, 0x50]

  function PinLayout(hash: seq<byte>, retries: byte): Page
    requires |hash| == 16
  {
    PIN_MAGIC + hash + [retries] + Zeros(235)
  }

  /** pin_load */
  function PinSlot(p: Page): Option<PinState> {
    if p[0..4] == PIN_MAGIC then Some(PinState(p[4..20], p[20])) else None
  }

  lemma PinReads(hash: seq<byte>, retries: byte)
    requires |hash| == 16
    ensures PinSlot(PinLayout(hash, retries)) == Some(PinState(hash, retries))
  {
    var p := PinLayout(hash, retries);
    assert p[0..4] == PIN_MAGIC && p[4..20] == hash && p[20] == retries;
  }

  /** Where the fields of the record lie: those of the packed struct, the word lowest byte
      first. */
  lemma PinFields(hash: seq<byte>, retries: byte, i: nat)
    requires |hash| == 16 && i < 256
    ensures var p := PinLayout(hash, retries);
      && p[0] as int + 256 * (p[1] as int) + 0x1_0000 * (p[2] as int) + 0x100_0000 * (p[3] as int) == 0x5049_4E50
      && p[4..20] == hash && p[20] == retries && (21 <= i ==> p[i] == 0)
  {
    var p := PinLayout(hash, retries);
    assert p[0..4] == PIN_MAGIC && p[0] == PIN_MAGIC[0];
  }

  lemma PinRetriesChanged(p: Page, retries: byte)
    requires PinSlot(p).Some?
    ensures PinSlot(p[20 := retries]) == Some(PinSlot(p).value.(retries := retries))
  {
    var r := p[20 := retries];
    assert r[0..4] == p[0..4] && r[4..20] == p[4..20];
  }

  class PinStore {
    const memory: Memory
    const page: nat

    ghost predicate Valid()
    {
      page < memory.pages.Length
    }

    ghost function Pin(): Option<PinState>
      requires Valid()
      reads memory.pages
    {
      PinSlot(memory.pages[page])
    }

    constructor (memory: Memory, page: nat)
      requires page < memory.pages.Length
      ensures Valid() && this.memory == memory && this.page == page
    {
      this.memory := memory;
      this.page := page;
    }

    method PinLoad() returns (p: Option<PinState>)
      requires Valid()
      ensures p == Pin()
    {
      p := PinSlot(memory.pages[page]);
    }

    /** pin_save: a new PIN starts with eight tries, and the other pages stay as they are. */
    method PinSave(hash: seq<byte>)
      requires Valid() && |hash| == 16
      modifies memory.pages
      ensures Pin() == Some(PinState(hash, 8))
      ensures memory.pages[..] == old(memory.pages[..])[page := PinLayout(hash, 8)]
    {
      PinReads(hash, 8);
      memory.WritePage(page, PinLayout(hash, 8));
      assert memory.pages[..][page] == memory.pages[page];
    }

    method SetRetries(retries: byte)
      requires Valid() && Pin().Some?
      modifies memory.pages
      ensures Pin() == Some(old(Pin()).value.(retries := retries))
      ensures memory.pages[..] == old(memory.pages[..])[page := old(memory.pages[page])[20 := retries]]
    {
      var copy := memory.pages[page];
      PinRetriesChanged(copy, retries);
      memory.WritePage(page, copy[20 := retries]);
      assert memory.pages[..][page] == memory.pages[page];
    }

    method PinDecrementRetries()
      requires Valid()
      modifies memory.pages
      ensures old(Pin()).None? ==> Pin().None?
      ensures old(Pin()).Some? ==>
        var p := old(Pin()).value; Pin() == Some(p.(retries := if p.retries > 0 then p.retries - 1 else 0))
      ensures forall i :: 0 <= i < memory.pages.Length && i != page ==> memory.pages[i] == old(memory.pages[i])
    {
      var p := PinLoad();
      if p.None? {
        return;
      }
      var current: byte := memory.pages[page][20];
      ghost var was := memory.pages[..];
      SetRetries(if current > 0 then current - 1 else 0);
      assert forall i :: 0 <= i < |was| && i != page ==> memory.pages[..][i] == was[i];
    }

    method PinResetRetries()
      requires Valid()
      modifies memory.pages
      ensures old(Pin()).None? ==> Pin().None?
      ensures old(Pin()).Some? ==> Pin() == Some(old(Pin()).value.(retries := 8))
      ensures forall i :: 0 <= i < memory.pages.Length && i != page ==> memory.pages[i] == old(memory.pages[i])
    {
      var p := PinLoad();
      if p.None? {
        return;
      }
      ghost var was := memory.pages[..];
      SetRetries(8);
      assert forall i :: 0 <= i < |was| && i != page ==> memory.pages[..][i] == was[i];
    }
  }
}
