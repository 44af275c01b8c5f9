/** One bank of the page-mapping FTL of HW3/ftl.c as a value: its map, validity marks, write frontier and
    flash contents, the invariant every bank keeps, and what one page write and one garbage collection do. */
module FtlBank {
  import opened Common
  import opened NandFlash

  const OP_RATIO := 7
  const N_GC_BLOCKS := 1
  const UNMAPPED := -1

  /** The compile-time sizes of HW3/ftl.h as parameters. */
  datatype Geometry = Geometry(banks: nat, blks: nat, pages: nat, buffers: nat) {
    /** Nonempty dimensions, and sector addresses and spare words that fit the source's 32-bit ints. */
    predicate Valid() {
      && banks > 0 && blks >= N_GC_BLOCKS && pages > 0 && buffers > 0
      && buffers < 0x7FFF_FFFF && Lpns() <= 0x7FFF_FFFF && Lpns() * banks * SECTORS_PER_PAGE <= 0x7FFF_FFFF
    }

    function UserBlks(): nat
      requires blks >= N_GC_BLOCKS
    {
      (blks - N_GC_BLOCKS) * 100 / (100 + OP_RATIO)
    }

    function Lpns(): nat
      requires blks >= N_GC_BLOCKS
    {
      UserBlks() * pages
    }

    function Ppns(): nat {
      blks * pages
    }

    /** Over-provisioning leaves at least one block's worth of pages beyond the user pages, the spare block
        not counted. */
    lemma UserPagesFit()
      requires Valid() && Lpns() > 0
      ensures blks >= 2 && Lpns() + pages <= (blks - 1) * pages
    {
      assert UserBlks() > 0 && UserBlks() + 1 <= blks - 1;
      MulMono(UserBlks() + 1, blks - 1, pages);
      assert (UserBlks() + 1) * pages == UserBlks() * pages + pages;
    }
  }

  /** 100 of every 107 blocks but the spare one are for the user. */
  lemma UserShare(g: Geometry)
    requires g.Valid()
    ensures 107 * g.UserBlks() <= 100 * (g.blks - 1) < 107 * (g.UserBlks() + 1)
  {
  }

  // ---- physical page numbers -------------------------------------------------------------------------

  function BlkOf(g: Geometry, ppn: nat): nat
    requires g.Valid()
  {
    ppn / g.pages
  }

  function OffOf(g: Geometry, ppn: nat): nat
    requires g.Valid()
  {
    ppn % g.pages
  }

  function PpnOf(g: Geometry, blk: nat, off: nat): nat {
    blk * g.pages + off
  }

  lemma BlkBelow(g: Geometry, ppn: nat, n: nat)
    requires g.Valid()
    ensures ppn < n * g.pages <==> BlkOf(g, ppn) < n
  {
    var b := BlkOf(g, ppn);
    assert (b + 1) * g.pages == b * g.pages + g.pages;
    if b < n {
      MulMono(b + 1, n, g.pages);
    } else {
      MulMono(n, b, g.pages);
    }
  }

  lemma Split(g: Geometry, ppn: nat)
    requires g.Valid()
    ensures OffOf(g, ppn) < g.pages && PpnOf(g, BlkOf(g, ppn), OffOf(g, ppn)) == ppn
    ensures ppn < g.Ppns() <==> BlkOf(g, ppn) < g.blks
  {
    BlkBelow(g, ppn, g.blks);
  }

  lemma Join(g: Geometry, blk: nat, off: nat)
    requires g.Valid() && off < g.pages
    ensures BlkOf(g, PpnOf(g, blk, off)) == blk && OffOf(g, PpnOf(g, blk, off)) == off
    ensures blk < g.blks ==> PpnOf(g, blk, off) < g.Ppns()
  {
    var ppn := PpnOf(g, blk, off);
    RowMajorInjective(g.pages, BlkOf(g, ppn), OffOf(g, ppn), blk, off);
    Split(g, ppn);
  }

  // ---- a bank ---------------------------------------------------------------------------------------

  datatype Bank = Bank(l2p: seq<int>, valid: seq<bool>, next: nat, trigger: nat, free: nat, flash: BankFlash)

  ghost predicate Shaped(g: Geometry, k: Bank) {
    && g.Valid()
    && |k.l2p| == g.Lpns() && |k.valid| == g.Ppns() && |k.flash| == g.blks && k.free < g.blks
    && (forall b :: 0 <= b < g.blks ==> |k.flash[b]| <= g.pages)
  }

  ghost predicate Written(g: Geometry, k: Bank, ppn: int)
    requires Shaped(g, k)
  {
    0 <= ppn < g.Ppns() && BlkOf(g, ppn) < g.blks && OffOf(g, ppn) < |k.flash[BlkOf(g, ppn)]|
  }

  function CellAt(g: Geometry, k: Bank, ppn: int): Cell
    requires Shaped(g, k) && Written(g, k, ppn)
  {
    k.flash[BlkOf(g, ppn)][OffOf(g, ppn)]
  }

  ghost predicate InFrontier(k: Bank, ppn: int) {
    k.next <= ppn < k.trigger
  }

  /** A mapped logical page points at a programmed, valid page whose spare area names it back. */
  ghost predicate Mapped(g: Geometry, k: Bank, l: nat)
    requires Shaped(g, k) && l < g.Lpns()
  {
    Written(g, k, k.l2p[l]) && k.valid[k.l2p[l]] && CellAt(g, k, k.l2p[l]).spare == l
  }

  /** A programmed page marked valid is the image of the logical page its spare area names. */
  ghost predicate Owned(g: Geometry, k: Bank, ppn: int)
    requires Shaped(g, k) && Written(g, k, ppn)
  {
    var l := CellAt(g, k, ppn).spare;
    l < g.Lpns() && k.l2p[l] == ppn
  }

  /** Exactly the write frontier and the spare block are unprogrammed. */
  ghost predicate FrontierOk(g: Geometry, k: Bank)
    requires Shaped(g, k)
  {
    && k.next <= k.trigger <= g.Ppns()
    && k.flash[k.free] == []
    && (forall ppn {:trigger Written(g, k, ppn)} :: 0 <= ppn < g.Ppns() ==>
          (Written(g, k, ppn) <==> !InFrontier(k, ppn) && BlkOf(g, ppn) != k.free))
    && (forall ppn {:trigger BlkOf(g, ppn)} :: InFrontier(k, ppn) ==> BlkOf(g, ppn) != k.free)
  }

  ghost predicate MapOk(g: Geometry, k: Bank)
    requires Shaped(g, k)
  {
    && (forall l :: 0 <= l < g.Lpns() && k.l2p[l] != UNMAPPED ==> Mapped(g, k, l))
    && (forall ppn {:trigger Written(g, k, ppn)} :: Written(g, k, ppn) && k.valid[ppn] ==> Owned(g, k, ppn))
    && (forall ppn {:trigger k.valid[ppn]} :: 0 <= ppn < g.Ppns() && !Written(g, k, ppn) ==> k.valid[ppn])
  }

  ghost predicate BankOk(g: Geometry, k: Bank) {
    Shaped(g, k) && FrontierOk(g, k) && MapOk(g, k)
  }

  /** What the bank's flash holds for a logical page. */
  function Stored(g: Geometry, k: Bank, l: nat): Option<Page>
    requires Shaped(g, k) && l < g.Lpns()
    requires k.l2p[l] != UNMAPPED ==> Written(g, k, k.l2p[l])
  {
    if k.l2p[l] == UNMAPPED then None else Some(CellAt(g, k, k.l2p[l]).data)
  }

  ghost predicate SameStored(g: Geometry, k: Bank, k': Bank)
    requires BankOk(g, k) && BankOk(g, k')
  {
    forall l :: 0 <= l < g.Lpns() ==> Stored(g, k', l) == Stored(g, k, l)
  }

  function OpenedBank(g: Geometry): Bank
    requires g.Valid()
  {
    Bank(seq(g.Lpns(), _ => UNMAPPED), seq(g.Ppns(), _ => true), 0, PpnOf(g, g.blks - 1, 0), g.blks - 1,
         seq(g.blks, _ => []))
  }

  lemma OpenedBankOk(g: Geometry)
    requires g.Valid()
    ensures BankOk(g, OpenedBank(g))
    ensures forall l :: 0 <= l < g.Lpns() ==> Stored(g, OpenedBank(g), l) == None
  {
    var k := OpenedBank(g);
    MulMono(g.blks - 1, g.blks, g.pages);
    forall ppn | 0 <= ppn < g.Ppns()
      ensures InFrontier(k, ppn) <==> BlkOf(g, ppn) != k.free
    {
      Split(g, ppn);
      BlkBelow(g, ppn, g.blks - 1);
    }
  }

  /** The map of a sound bank is injective: two logical pages never share a physical page. */
  lemma MapInjective(g: Geometry, k: Bank, l1: nat, l2: nat)
    requires BankOk(g, k) && l1 < g.Lpns() && l2 < g.Lpns()
    ensures k.l2p[l1] == k.l2p[l2] != UNMAPPED ==> l1 == l2
  {
    if k.l2p[l1] == k.l2p[l2] != UNMAPPED {
      assert Mapped(g, k, l1) && Mapped(g, k, l2);
    }
  }

  /** A programmed page is valid iff it is the image of some logical page. */
  lemma ValidIffImage(g: Geometry, k: Bank, ppn: int)
    requires BankOk(g, k) && Written(g, k, ppn)
    ensures k.valid[ppn] <==> exists l :: 0 <= l < g.Lpns() && k.l2p[l] == ppn
  {
    if k.valid[ppn] {
      assert Owned(g, k, ppn);
      assert k.l2p[CellAt(g, k, ppn).spare] == ppn;
    }
    if l :| 0 <= l < g.Lpns() && k.l2p[l] == ppn {
      assert Mapped(g, k, l);
    }
  }

  // ---- one page write --------------------------------------------------------------------------------

  /** Where the frontier points is where the NAND accepts the next program of that block. */
  lemma FrontierIsNextPosition(g: Geometry, k: Bank)
    requires BankOk(g, k) && k.next < k.trigger
    ensures BlkOf(g, k.next) < g.blks && BlkOf(g, k.next) != k.free
    ensures OffOf(g, k.next) == |k.flash[BlkOf(g, k.next)]| < g.pages
  {
    Split(g, k.next);
    var b, o := BlkOf(g, k.next), OffOf(g, k.next);
    assert !Written(g, k, k.next);
    var q := |k.flash[b]|;
    Join(g, b, q);
    assert !Written(g, k, PpnOf(g, b, q));
    assert InFrontier(k, PpnOf(g, b, q));
  }

  function Invalidated(k: Bank, l: nat): seq<bool>
    requires l < |k.l2p|
    requires k.l2p[l] != UNMAPPED ==> 0 <= k.l2p[l] < |k.valid|
  {
    if k.l2p[l] != UNMAPPED then k.valid[k.l2p[l] := false] else k.valid
  }

  /** The bank after write_through_lpn stored data for l at the frontier. */
  function Appended(g: Geometry, k: Bank, l: nat, data: Page): Bank
    requires g.Valid() && l < |k.l2p| && l < g.Lpns()
    requires k.l2p[l] != UNMAPPED ==> 0 <= k.l2p[l] < |k.valid|
    requires BlkOf(g, k.next) < |k.flash|
  {
    var b := BlkOf(g, k.next);
    k.(valid := Invalidated(k, l), l2p := k.l2p[l := k.next], next := k.next + 1,
       flash := k.flash[b := k.flash[b] + [Cell(data, l)]])
  }

  lemma AppendWritten(g: Geometry, k: Bank, l: nat, data: Page, ppn: nat)
    requires BankOk(g, k) && k.next < k.trigger && l < g.Lpns()
    requires k.l2p[l] != UNMAPPED ==> 0 <= k.l2p[l] < |k.valid|
    requires BlkOf(g, k.next) < g.blks && OffOf(g, k.next) == |k.flash[BlkOf(g, k.next)]| < g.pages
    requires ppn < g.Ppns()
    ensures Shaped(g, Appended(g, k, l, data))
    ensures Written(g, Appended(g, k, l, data), ppn) <==> Written(g, k, ppn) || ppn == k.next
    ensures Written(g, k, ppn) ==> CellAt(g, Appended(g, k, l, data), ppn) == CellAt(g, k, ppn)
    ensures ppn == k.next ==> CellAt(g, Appended(g, k, l, data), ppn) == Cell(data, l)
  {
    Split(g, ppn);
    Split(g, k.next);
  }

  lemma AppendOk(g: Geometry, k: Bank, l: nat, data: Page)
    requires BankOk(g, k) && k.next < k.trigger && l < g.Lpns()
    ensures k.l2p[l] != UNMAPPED ==> 0 <= k.l2p[l] < |k.valid|
    ensures BlkOf(g, k.next) < g.blks
    ensures var k' := Appended(g, k, l, data);
            && BankOk(g, k')
            && forall m :: 0 <= m < g.Lpns() ==>
                 Stored(g, k', m) == if m == l then Some(data) else Stored(g, k, m)
  {
    FrontierIsNextPosition(g, k);
    assert k.l2p[l] != UNMAPPED ==> Mapped(g, k, l);
    var k' := Appended(g, k, l, data);
    AppendWritten(g, k, l, data, k.next);
    assert Shaped(g, k');
    forall ppn | 0 <= ppn < g.Ppns()
      ensures Written(g, k', ppn) <==> Written(g, k, ppn) || ppn == k.next
      ensures Written(g, k, ppn) ==> CellAt(g, k', ppn) == CellAt(g, k, ppn)
      ensures Written(g, k', ppn) && k'.valid[ppn] ==> Owned(g, k', ppn)
    {
      AppendWritten(g, k, l, data, ppn);
      if Written(g, k, ppn) && k'.valid[ppn] {
        assert Owned(g, k, ppn);
      }
    }
    assert !Written(g, k, k.next);
    forall m | 0 <= m < g.Lpns()
      ensures k'.l2p[m] != UNMAPPED ==> Mapped(g, k', m)
      ensures k.l2p[m] != UNMAPPED ==> Mapped(g, k, m)
    {
      if m != l && k.l2p[m] != UNMAPPED {
        assert Mapped(g, k, m);
        MapInjective(g, k, l, m);
      }
    }
  }
}
