/** Flash pages and what is stored in them: erasing sets every bit, programming can only
    clear bits, and a credential occupies one page. */
module Flash {
  import opened Bytes

  type Page = p: seq<byte> | |p| == 256 witness seq(256, i => 0xFF)

  function Erased(): Page {
    seq(256, i => 0xFF)
  }

  /** Bitwise and of the low `k` bits. */
  function AndBits(a: nat, b: nat, k: nat): (r: nat)
    ensures r <= b
  {
    if k == 0 then 0
    else 2 * AndBits(a / 2, b / 2, k - 1) + (if a % 2 == 1 && b % 2 == 1 then 1 else 0)
  }

  function Ones(k: nat): nat {
    if k == 0 then 0 else 2 * Ones(k - 1) + 1
  }

  lemma {:induction false} AndOnes(b: nat, k: nat)
    requires b <= Ones(k)
    ensures AndBits(Ones(k), b, k) == b
  {
    if 0 < k {
      AndOnes(b / 2, k - 1);
    }
  }

  /** What a byte of flash holds after programming `b` over `a`. */
  function Programmed(a: byte, b: byte): byte {
    AndBits(a, b, 8)
  }

  lemma ProgramErased(b: byte)
    ensures Programmed(0xFF, b) == b
  {
    assert Ones(8) == 0xFF;
    AndOnes(b, 8);
  }

  /** 64 bytes programmed at `at`. */
  function Program64(p: Page, at: nat, data: seq<byte>): (r: Page)
    requires at + 64 <= 256 && |data| == 64
  {
    seq(256, i requires 0 <= i < 256 => if at <= i < at + 64 then Programmed(p[i], data[i - at]) else p[i])
  }

  /** Bit `k` of a number. */
  predicate Bit(v: nat, k: nat) {
    if k == 0 then v % 2 == 1 else Bit(v / 2, k - 1)
  }

  lemma {:induction false} AndBitsAt(a: nat, b: nat, n: nat, k: nat)
    ensures Bit(AndBits(a, b, n), k) <==> k < n && Bit(a, k) && Bit(b, k)
  {
    if n == 0 {
      ZeroBit(k);
    } else {
      var r := AndBits(a / 2, b / 2, n - 1);
      assert AndBits(a, b, n) / 2 == r;
      if 0 < k {
        AndBitsAt(a / 2, b / 2, n - 1, k - 1);
      }
    }
  }

  lemma {:induction false} ZeroBit(k: nat)
    ensures !Bit(0, k)
  {
    if 0 < k {
      ZeroBit(k - 1);
    }
  }

  /** Every bit that is set in `r` is set in `p`. */
  ghost predicate OnlyClears(p: Page, r: Page) {
    forall i, k: nat :: 0 <= i < 256 && Bit(r[i], k) ==> Bit(p[i], k)
  }

  /** Programming can only clear bits, and clears exactly those that the data has clear. */
  lemma ProgramOnlyClears(p: Page, at: nat, data: seq<byte>)
    requires at + 64 <= 256 && |data| == 64
    ensures OnlyClears(p, Program64(p, at, data))
    ensures forall i, k: nat :: at <= i < at + 64 && k < 8 ==>
      (Bit(Program64(p, at, data)[i], k) <==> Bit(p[i], k) && Bit(data[i - at], k))
  {
    hide AndBits, Bit;
    var r := Program64(p, at, data);
    forall i, k: nat | 0 <= i < 256
      ensures Bit(r[i], k) <==> Bit(p[i], k) && (at <= i < at + 64 ==> k < 8 && Bit(data[i - at], k))
    {
      if at <= i < at + 64 {
        AndBitsAt(p[i], data[i - at], 8, k);
      }
    }
  }

  /** Programming erased bytes stores exactly the data. */
  lemma Program64Erased(p: Page, at: nat, data: seq<byte>)
    requires at + 64 <= 256 && |data| == 64 && p[at..] == Erased()[at..]
    ensures Program64(p, at, data) == p[..at] + data + Erased()[at + 64..]
  {
    hide Programmed;
    var r := Program64(p, at, data);
    forall i | 0 <= i < 256 ensures r[i] == (p[..at] + data + Erased()[at + 64..])[i] {
      if at <= i {
        assert p[i] == p[at..][i - at] == 0xFF;
        if i < at + 64 {
          ProgramErased(data[i - at]);
        }
      }
    }
  }

  /** The first `k` parts of a page, in an otherwise erased one. */
  function Partly(data: Page, k: nat): Page
    requires k <= 4
  {
    data[..64 * k] + Erased()[64 * k..]
  }

  lemma PartlyNext(data: Page, k: nat)
    requires k < 4
    ensures Program64(Partly(data, k), 64 * k, data[64 * k..64 * k + 64]) == Partly(data, k + 1)
  {
    hide Program64;
    Program64Erased(Partly(data, k), 64 * k, data[64 * k..64 * k + 64]);
    assert Partly(data, k)[..64 * k] == data[..64 * k];
    assert data[..64 * k] + data[64 * k..64 * k + 64] == data[..64 * (k + 1)];
  }

  /** The flash controller, one page at a time. */
  class Memory {
    const pages: array<Page>

    constructor (n: nat)
      ensures pages.Length == n && fresh(pages)
    {
      pages := new Page[n](i => Erased());
    }

    method ErasePage(i: nat)
      requires i < pages.Length
      modifies pages
      ensures pages[..] == old(pages[..])[i := Erased()]
    {
      pages[i] := Erased();
    }

    method Program(i: nat, at: nat, data: seq<byte>)
      requires i < pages.Length && at + 64 <= 256 && |data| == 64
      modifies pages
      ensures pages[..] == old(pages[..])[i := Program64(old(pages[i]), at, data)]
      ensures OnlyClears(old(pages[i]), pages[i])
    {
      ProgramOnlyClears(pages[i], at, data);
      pages[i] := Program64(pages[i], at, data);
    }

    /** Lines 101-111: erase the page, then program it in four parts. */
    method WritePage(i: nat, data: Page)
      requires i < pages.Length
      modifies pages
      ensures pages[..] == old(pages[..])[i := data]
    {
      hide Program64;
      ghost var was := pages[..];
      ErasePage(i);
      assert Partly(data, 0) == Erased();
      for k := 0 to 4
        invariant pages[..] == was[i := Partly(data, k)]
      {
        PartlyNext(data, k);
        Program(i, 64 * k, data[64 * k..64 * k + 64]);
      }
      assert Partly(data, 4) == data;
    }
  }
}
