/** Frame allocation and user address spaces of xv6 (kalloc.c, vm.c): two-level tables edited in place.  A frame is seen
    as a page table or as data, as its use demands; sizes are in bytes, page positions in pages. */
module AddressSpaces {
  import opened Common
  import opened VmState

  const KERNBASE: nat := KPAGE * PGSIZE

  type Pages = seq<seq<Byte>>

  /** mappages and the copying of a page: done, out of memory, or the panic for a page present ("remap") or absent
      ("page not present"). */
  datatype Mapping = Done | NoMemory | Panicked

  /** copyuvm: the copy, 0, or a panic. */
  datatype Copying = CopiedAs(c: nat) | NotCopied | CopyPanicked

  /** A row of kmap, in pages. */
  datatype Region = Region(vp: nat, pa: nat, count: nat, perm: nat)

  function ZeroPage(): seq<Byte> {
    seq(PGSIZE, _ => 0)
  }

  /** What kfree leaves in a frame, as data and as a table. */
  function JunkPage(): seq<Byte> {
    seq(PGSIZE, _ => 1)
  }

  function JunkTable(): Table {
    seq(NPTENTRIES, _ => Present(0x1010, 0x101))
  }

  function PgRoundUp(sz: nat): nat {
    (sz + PGSIZE - 1) / PGSIZE
  }

  /** Pages below PgRoundUp(sz) are those that hold one of the first sz bytes. */
  lemma RoundedUp(sz: nat, p: nat)
    ensures p < PgRoundUp(sz) <==> 4096 * p < sz
  {
  }

  predicate BelongsTo(o: Owner, f: nat, d: nat) {
    Structure(o, f, d) || (o.Data? && o.d == d)
  }

  predicate NonePresent(ts: seq<Table>, d: nat, lo: nat, hi: nat) {
    forall vp: nat | lo <= vp < hi :: Flat(ts, d, vp) == Absent
  }

  predicate AllPresent(ts: seq<Table>, d: nat, hi: nat) {
    forall vp: nat | vp < hi :: Flat(ts, d, vp).Present?
  }

  // ---- what operations cost ----------------------------------------------------------------------------

  /** The entries of directory d that have a page table. */
  function TableSlots(ts: seq<Table>, d: nat): set<nat> {
    set i: nat | i < NPTENTRIES && d < |ts| && ts[d][i].Present?
  }

  /** The directory entries of pages lo to hi. */
  function SlotsOf(lo: nat, hi: nat): set<nat> {
    set vp: nat | lo <= vp < hi :: vp / NPTENTRIES
  }

  /** From m to m' directory d got tables for slots, and the free list paid for the new ones and for frames more. */
  ghost predicate Spent(m: Vm, m': Vm, d: nat, frames: int, slots: set<nat>) {
    && TableSlots(m'.tabs, d) == TableSlots(m.tabs, d) + slots
    && |m'.free| + |TableSlots(m'.tabs, d)| + frames == |m.free| + |TableSlots(m.tabs, d)|
  }

  lemma SpentMore(m: Vm, m1: Vm, m2: Vm, d: nat, frames: int, lo: nat, a: nat, n: int)
    requires lo <= a && Spent(m, m1, d, frames, SlotsOf(lo, a)) && Spent(m1, m2, d, n, {a / NPTENTRIES})
    ensures Spent(m, m2, d, frames + n, SlotsOf(lo, a + 1))
  {
    SlotsNext(lo, a);
  }

  /** What pages lo to hi take: a frame each, and tables. */
  function Needed(ts: seq<Table>, d: nat, lo: nat, hi: nat): nat
    requires lo <= hi
  {
    hi - lo + |SlotsOf(lo, hi) - TableSlots(ts, d)|
  }

  lemma SlotsNext(lo: nat, a: nat)
    requires lo <= a
    ensures SlotsOf(lo, a + 1) == SlotsOf(lo, a) + {a / NPTENTRIES}
  {
  }

  lemma UnionSize(a: set<nat>, b: set<nat>)
    ensures |a + b| == |a| + |b - a|
  {
    assert a + b == a + (b - a);
  }

  lemma SpentIsNeeded(m: Vm, m': Vm, d: nat, lo: nat, a: nat)
    requires lo <= a && Spent(m, m', d, a - lo, SlotsOf(lo, a))
    ensures |m'.free| == |m.free| - Needed(m.tabs, d, lo, a)
    ensures Needed(m.tabs, d, lo, a + 1) == Needed(m.tabs, d, lo, a) + 1
                                             + (if a / NPTENTRIES in TableSlots(m'.tabs, d) then 0 else 1)
  {
    hide TableSlots, SlotsOf;
    var had, slots := TableSlots(m.tabs, d), SlotsOf(lo, a);
    SlotsNext(lo, a);
    UnionSize(had, slots);
    UnionSize(had + slots, {a / NPTENTRIES});
    UnionSize(had, SlotsOf(lo, a + 1));
    assert had + (slots + {a / NPTENTRIES}) == (had + slots) + {a / NPTENTRIES};
  }

  lemma NeededGrows(ts: seq<Table>, d: nat, lo: nat, a: nat, b: nat)
    requires lo <= a <= b
    ensures Needed(ts, d, lo, a) <= Needed(ts, d, lo, b)
  {
    assert SlotsOf(lo, a) - TableSlots(ts, d) <= SlotsOf(lo, b) - TableSlots(ts, d);
    SubsetSmaller(SlotsOf(lo, a) - TableSlots(ts, d), SlotsOf(lo, b) - TableSlots(ts, d));
  }

  lemma SubsetSmaller(a: set<nat>, b: set<nat>)
    requires a <= b
    ensures |a| <= |b|
  {
    assert b == a + (b - a);
  }

  // ---- what operations leave alone ---------------------------------------------------------------------

  /** Other address spaces look the same. */
  ghost predicate OthersSame(m: Vm, m': Vm, d: nat) {
    forall e: nat, vp: nat :: e in m.spaces && e != d ==> Flat(m'.tabs, e, vp) == Flat(m.tabs, e, vp)
  }

  /** Frames in use stay as they are; free frames may come to belong to d. */
  ghost predicate FrameGrew(o: Owner, o': Owner, x: seq<Byte>, x': seq<Byte>, f: nat, d: nat) {
    if o == Free then o' == Free || BelongsTo(o', f, d) else o' == o && x' == x
  }

  ghost predicate Grew(m: Vm, data: Pages, m': Vm, data': Pages, d: nat, but: int) {
    && |m.owner| == |m'.owner| == |data| == |data'|
    && forall f: nat :: f < |m.owner| && f != but ==> FrameGrew(m.owner[f], m'.owner[f], data[f], data'[f], f, d)
  }

  class Memory {
    const tabs: array<Table>        // frames as page tables
    const data: array<seq<Byte>>    // frames as data
    const kmap: seq<Region>
    var free: seq<nat>              // kmem.freelist
    ghost var owner: seq<Owner>
    ghost var spaces: set<nat>

    ghost function St(): Vm
      reads this, tabs
    {
      Vm(tabs[..], free, owner, spaces)
    }

    ghost predicate Valid()
      reads this, tabs
    {
      VmOk(St()) && data.Length == tabs.Length
    }

    // ---- kalloc.c --------------------------------------------------------------------------------------

    constructor (n: nat, kmap: seq<Region>)
      ensures Valid() && tabs.Length == n && this.kmap == kmap && free == [] && spaces == {} && fresh(tabs)
              && fresh(data)
      ensures forall f: nat :: f < n ==> owner[f] == Held
    {
      tabs := new Table[n](_ => Zeroed());
      data := new seq<Byte>[n](_ => []);
      this.kmap := kmap;
      free, spaces := [], {};
      owner := seq(n, _ => Held);
    }

    /** freerange, from one frame up to another. */
    method Freerange(start: nat, end: nat)
      requires Valid() && start <= end <= tabs.Length && forall f: nat :: start <= f < end ==> owner[f] == Held
      modifies this`free, this`owner, tabs, data
      ensures Valid() && spaces == old(spaces)
      ensures forall f: nat :: f < tabs.Length ==> owner[f] == if start <= f < end then Free else old(owner)[f]
      ensures forall e: nat, vp: nat :: e in spaces ==> Flat(tabs[..], e, vp) == Flat(old(tabs[..]), e, vp)
    {
      hide VmOk, Flat;
      FreeFacts(St());
      var p := start;
      while p < end
        invariant start <= p <= end && Valid() && spaces == old(spaces) && |owner| == tabs.Length
        invariant forall f: nat :: f < tabs.Length ==> owner[f] == if start <= f < p then Free else old(owner)[f]
        invariant forall e: nat, vp: nat :: e in spaces ==> Flat(tabs[..], e, vp) == Flat(old(tabs[..]), e, vp)
      {
        Kfree(p);
        p := p + 1;
      }
    }

    /** kalloc. */
    method Kalloc() returns (r: Option<nat>)
      requires Valid()
      modifies this`free, this`owner
      ensures Valid()
      ensures r.None? <==> old(free) == []
      ensures r.None? ==> St() == old(St())
      ensures r.Some? ==>
                && r.value == old(free)[0] && r.value < tabs.Length && old(owner)[r.value] == Free
                && St() == Taken(old(St()))
    {
      hide VmOk;
      if free == [] {
        return None;
      }
      TakenOk(St());
      FreeFacts(St());
      r := Some(free[0]);
      owner := owner[free[0] := Held];
      free := free[1..];
    }

    lemma FreeFacts(m: Vm)
      requires VmOk(m)
      ensures |m.owner| == |m.tabs|
      ensures m.free != [] ==> m.free[0] < |m.owner| && m.owner[m.free[0]] == Free
    {
    }

    /** kfree, of a frame that is in no address space. */
    method Kfree(f: nat)
      requires Valid() && f < tabs.Length && owner[f] == Held
      modifies this`free, this`owner, tabs, data
      ensures Valid() && spaces == old(spaces) && free == [f] + old(free)
      ensures owner == old(owner)[f := Free] && data[..] == old(data[..])[f := JunkPage()]
              && tabs[..] == old(tabs[..])[f := JunkTable()]
      ensures forall e: nat, vp: nat :: e in spaces ==> Flat(tabs[..], e, vp) == Flat(old(tabs[..]), e, vp)
    {
      hide VmOk, Flat;
      FreeFacts(St());
      GivenOk(St(), f);
      HeldCleared(Given(St(), f), f, JunkTable());
      tabs[f], data[f] := JunkTable(), JunkPage();
      owner := owner[f := Free];
      free := [f] + free;
    }

    /** memset of an allocated frame to zero. */
    method Clear(f: nat)
      requires Valid() && f < tabs.Length && owner[f] == Held
      modifies tabs, data
      ensures Valid() && St() == old(St()).(tabs := old(tabs[..])[f := Zeroed()])
              && data[..] == old(data[..])[f := ZeroPage()]
      ensures forall e: nat, vp: nat :: e in spaces ==> Flat(tabs[..], e, vp) == Flat(old(tabs[..]), e, vp)
    {
      hide VmOk, Flat;
      FreeFacts(St());
      HeldCleared(St(), f, Zeroed());
      tabs[f], data[f] := Zeroed(), ZeroPage();
    }

    // ---- page tables -----------------------------------------------------------------------------------

    /** walkpgdir: the table that holds the entry of page vp, made if alloc is set. */
    method Walkpgdir(d: nat, vp: nat, alloc: bool) returns (t: Option<nat>)
      requires Valid() && d in spaces && vp < PAGES
      modifies this`free, this`owner, tabs, data
      ensures Valid() && spaces == old(spaces)
      ensures t.Some? ==> TableOf(St(), d, vp, t.value)
      ensures t.None? ==> Flat(tabs[..], d, vp) == Absent && d < tabs.Length && tabs[d][vp / NPTENTRIES] == Absent
      ensures t.None? || !alloc || Flat(old(tabs[..]), d, vp).Present? ==>
                St() == old(St()) && data[..] == old(data[..])
      ensures t.None? && alloc ==> free == []
      ensures alloc ==> (t.None? <==> old(free) == [] && vp / NPTENTRIES !in TableSlots(old(tabs[..]), d))
      ensures t.Some? ==> Spent(old(St()), St(), d, 0, {vp / NPTENTRIES})
      ensures forall e: nat, wp: nat :: e in spaces ==> Flat(tabs[..], e, wp) == Flat(old(tabs[..]), e, wp)
      ensures Grew(old(St()), old(data[..]), St(), data[..], d, -1)
      ensures forall f: nat :: f < tabs.Length ==> owner[f] == old(owner)[f] || owner[f].Tab?
    {
      hide VmOk, Flat, TableSlots;
      ghost var m, bytes := St(), data[..];
      SpaceFacts(m, d, vp);
      SlotHasTable(m.tabs, d, vp / NPTENTRIES);
      PresentHasTable(m.tabs, d, vp);
      var pde := tabs[d][vp / NPTENTRIES];
      if pde.Present? {
        assert TableSlots(m.tabs, d) + {vp / NPTENTRIES} == TableSlots(m.tabs, d);
        return Some(pde.frame);
      }
      if !alloc {
        AbsentTable(m.tabs, d, vp);
        return None;
      }
      var pgtab := Kalloc();
      if pgtab.None? {
        AbsentTable(m.tabs, d, vp);
        return None;
      }
      var f := pgtab.value;
      Clear(f);
      SpaceFacts(St(), d, vp);
      TableAdded(St(), d, vp / NPTENTRIES, f, PTE_W + PTE_U);
      SlotFilled(m.tabs, tabs[..], d, vp / NPTENTRIES, Present(f, PTE_W + PTE_U));
      tabs[d] := tabs[d][vp / NPTENTRIES := Present(f, PTE_W + PTE_U)];
      owner := owner[f := Tab(d, vp / NPTENTRIES)];
      t := Some(f);
    }

    lemma SpaceFacts(m: Vm, d: nat, vp: nat)
      requires VmOk(m) && d in m.spaces && vp < PAGES
      ensures |m.owner| == |m.tabs| && d < |m.tabs| && m.owner[d] == Dir
      ensures m.tabs[d][vp / NPTENTRIES].Present? ==> TableOf(m, d, vp, m.tabs[d][vp / NPTENTRIES].frame)
    {
      assert DirOk(m, d) && TabOk(m, d, vp / NPTENTRIES);
    }

    static lemma AbsentTable(ts: seq<Table>, d: nat, vp: nat)
      requires d < |ts| && vp < PAGES && ts[d][vp / NPTENTRIES] == Absent
      ensures Flat(ts, d, vp) == Absent
    {
    }

    static lemma PresentHasTable(ts: seq<Table>, d: nat, vp: nat)
      requires d < |ts| && vp < PAGES
      ensures Flat(ts, d, vp).Present? ==> ts[d][vp / NPTENTRIES].Present?
    {
    }

    lemma TableNotDirectory(m: Vm, d: nat, vp: nat, t: nat)
      requires VmOk(m) && TableOf(m, d, vp, t)
      ensures t != d
    {
      assert DirOk(m, d) && TabOk(m, d, vp / NPTENTRIES);
    }

    static lemma SlotHasTable(ts: seq<Table>, d: nat, i: nat)
      requires d < |ts| && i < NPTENTRIES
      ensures i in TableSlots(ts, d) <==> ts[d][i].Present?
    {
    }

    static lemma SlotFilled(ts: seq<Table>, ts': seq<Table>, d: nat, i: nat, e: Pte)
      requires d < |ts| == |ts'| && ts'[d] == ts[d] && i < NPTENTRIES && !ts[d][i].Present? && e.Present?
      ensures TableSlots(ts'[d := ts'[d][i := e]], d) == TableSlots(ts, d) + {i}
      ensures |TableSlots(ts'[d := ts'[d][i := e]], d)| == |TableSlots(ts, d)| + 1
    {
      var after := ts'[d := ts'[d][i := e]];
      forall j: nat | j < NPTENTRIES
        ensures after[d][j].Present? <==> ts[d][j].Present? || j == i
      {
      }
      assert TableSlots(after, d) == TableSlots(ts, d) + {i};
    }

    static lemma SlotsKept(ts: seq<Table>, ts': seq<Table>, d: nat)
      requires d < |ts| == |ts'| && ts'[d] == ts[d]
      ensures TableSlots(ts', d) == TableSlots(ts, d)
    {
    }

    static lemma EntryOf(m: Vm, d: nat, vp: nat, t: nat)
      requires TableOf(m, d, vp, t)
      ensures Flat(m.tabs, d, vp) == m.tabs[t][vp % NPTENTRIES]
    {
    }

    /** One iteration of mappages: enter page vp. */
    method MapPage(d: nat, vp: nat, pa: nat, perm: nat) returns (r: Mapping)
      requires Valid() && d in spaces && vp < PAGES
      requires vp < KPAGE ==> pa < tabs.Length && owner[pa] == Held
      modifies this`free, this`owner, tabs, data
      ensures Valid() && spaces == old(spaces) && (r == NoMemory ==> free == [])
      ensures r == Panicked <==> Flat(old(tabs[..]), d, vp).Present?
      ensures r == NoMemory <==> old(free) == [] && vp / NPTENTRIES !in TableSlots(old(tabs[..]), d)
      ensures r == Done ==> Spent(old(St()), St(), d, 0, {vp / NPTENTRIES})
      ensures r != Done ==> St() == old(St()) && data[..] == old(data[..])
      ensures r == Done ==> Flat(tabs[..], d, vp) == Present(pa, perm)
      ensures forall e: nat, wp: nat :: e in spaces && (e, wp) != (d, vp) ==>
                Flat(tabs[..], e, wp) == Flat(old(tabs[..]), e, wp)
      ensures Grew(old(St()), old(data[..]), St(), data[..], d, if vp < KPAGE then pa else -1)
      ensures r == Done && vp < KPAGE ==> owner[pa] == Data(d, vp) && data[pa] == old(data[pa])
      ensures forall f: nat :: f < tabs.Length && (vp < KPAGE ==> f != pa) ==>
                owner[f] == old(owner)[f] || owner[f].Tab?
    {
      hide VmOk, Flat, TableSlots;
      SpaceFacts(St(), d, vp);
      var t := Walkpgdir(d, vp, true);
      if t.None? {
        return NoMemory;
      }
      ghost var m := St();
      EntryOf(m, d, vp, t.value);
      if tabs[t.value][vp % NPTENTRIES].Present? {
        return Panicked;
      }
      PageMapped(m, d, vp, t.value, pa, perm);
      EntryWritten(m, d, vp, t.value, Present(pa, perm));
      SpaceFacts(m, d, vp);
      TableNotDirectory(m, d, vp, t.value);
      SlotsKept(m.tabs, WithEntry(m, t.value, vp, Present(pa, perm)), d);
      tabs[t.value] := tabs[t.value][vp % NPTENTRIES := Present(pa, perm)];
      owner := if vp < KPAGE then owner[pa := Data(d, vp)] else owner;
      assert tabs[..] == WithEntry(m, t.value, vp, Present(pa, perm));
      r := Done;
    }

    // ---- deallocuvm and freevm -------------------------------------------------------------------------

    /** A table that does not exist maps nothing, so that its whole range can be skipped. */
    lemma NothingMapped(m: Vm, d: nat, vp: nat)
      requires VmOk(m) && vp < PAGES && Flat(m.tabs, d, vp) == Absent
      ensures forall f: nat :: f < |m.owner| ==> m.owner[f] != Data(d, vp)
    {
      forall f: nat | f < |m.owner|
        ensures m.owner[f] != Data(d, vp)
      {
        assert FrameOk(m, f);
      }
    }

    /** The owner of a frame after pages lo to hi of d were unmapped and their frames freed. */
    static function Unmapped(o: Owner, d: nat, lo: nat, hi: nat): Owner {
      if o.Data? && o.d == d && lo <= o.vp < hi then Free else o
    }

    /** State m' is m with pages lo to hi of d unmapped and their frames freed. */
    ghost predicate RangeFreed(m: Vm, bytes: Pages, m': Vm, bytes': Pages, d: nat, lo: nat, hi: nat) {
      && m'.spaces == m.spaces && |m.owner| == |m'.owner| == |bytes| == |bytes'|
      && OthersSame(m, m', d)
      && (forall vp: nat :: Flat(m'.tabs, d, vp) == if lo <= vp < hi then Absent else Flat(m.tabs, d, vp))
      && (forall f: nat :: f < |m.owner| ==> m'.owner[f] == Unmapped(m.owner[f], d, lo, hi))
      && (forall f: nat :: f < |m.owner| && m'.owner[f] != Free ==> bytes'[f] == bytes[f])
    }

    lemma RangeSkipped(m: Vm, bytes: Pages, m': Vm, bytes': Pages, d: nat, lo: nat, a: nat, b: nat)
      requires RangeFreed(m, bytes, m', bytes', d, lo, a) && VmOk(m') && lo <= a <= b <= PAGES
      requires forall vp: nat :: a <= vp < b ==> Flat(m'.tabs, d, vp) == Absent
      ensures RangeFreed(m, bytes, m', bytes', d, lo, b)
    {
      forall f: nat | f < |m.owner|
        ensures m'.owner[f] == Unmapped(m.owner[f], d, lo, b)
      {
        if m'.owner[f].Data? && m'.owner[f].d == d && a <= m'.owner[f].vp < b {
          NothingMapped(m', d, m'.owner[f].vp);
        }
      }
    }

    /** Freeing one page: the frame found in the entry of page vp. */
    method FreePage(d: nat, vp: nat, t: nat)
      requires Valid() && TableOf(St(), d, vp, t) && vp < KPAGE && Flat(tabs[..], d, vp).Present?
      modifies this`free, this`owner, tabs, data
      ensures Valid() && RangeFreed(old(St()), old(data[..]), St(), data[..], d, vp, vp + 1)
    {
      hide VmOk, Flat;
      ghost var m, bytes := St(), data[..];
      SpaceFacts(m, d, vp);
      EntryOf(m, d, vp, t);
      PageUnmapped(m, d, vp, t);
      EntryWritten(m, d, vp, t, Absent);
      OnlyOwner(m, d, vp);
      var pa := tabs[t][vp % NPTENTRIES].frame;
      // the entry is cleared before the frame is freed, so that the frame is in no address space then
      tabs[t] := tabs[t][vp % NPTENTRIES := Absent];
      owner := owner[pa := Held];
      assert tabs[..] == WithEntry(m, t, vp, Absent);
      Kfree(pa);
    }

    lemma OnlyOwner(m: Vm, d: nat, vp: nat)
      requires VmOk(m) && d in m.spaces && vp < KPAGE && Flat(m.tabs, d, vp).Present?
      ensures forall f: nat :: f < |m.owner| && m.owner[f] == Data(d, vp) ==> f == Flat(m.tabs, d, vp).frame
    {
      forall f: nat | f < |m.owner| && m.owner[f] == Data(d, vp)
        ensures f == Flat(m.tabs, d, vp).frame
      {
        assert FrameOk(m, f);
      }
    }

    /** deallocuvm. */
    method Deallocuvm(d: nat, oldsz: nat, newsz: nat) returns (r: nat)
      requires Valid() && d in spaces && oldsz <= KERNBASE
      modifies this`free, this`owner, tabs, data
      ensures Valid() && r == if newsz >= oldsz then oldsz else newsz
      ensures newsz >= oldsz ==> St() == old(St()) && data[..] == old(data[..])
      ensures newsz < oldsz ==>
                RangeFreed(old(St()), old(data[..]), St(), data[..], d, PgRoundUp(newsz), PgRoundUp(oldsz))
    {
      hide VmOk, Flat, RangeFreed;
      if newsz >= oldsz {
        return oldsz;
      }
      ghost var m, bytes, lo, hi := St(), data[..], PgRoundUp(newsz), PgRoundUp(oldsz);
      SpaceFacts(m, d, 0);
      NothingFreed(m, bytes, d, lo);
      var a := PgRoundUp(newsz);
      while a * PGSIZE < oldsz
        invariant lo <= a <= KPAGE && (a > hi ==> a - hi < NPTENTRIES) && Valid() && d in spaces
        invariant RangeFreed(m, bytes, St(), data[..], d, lo, if a < hi then a else hi)
        decreases KPAGE - a
      {
        ghost var m1, bytes1 := St(), data[..];
        var t := Walkpgdir(d, a, false);
        if t.None? {
          var next := (a / NPTENTRIES + 1) * NPTENTRIES - 1;
          EmptyTable(m1, d, a, next);
          RangeSkipped(m, bytes, St(), data[..], d, lo, a, if next + 1 < hi then next + 1 else hi);
          a := next;
        } else {
          SpaceFacts(m1, d, a);
          EntryOf(m1, d, a, t.value);
          if tabs[t.value][a % NPTENTRIES].Present? {
            FreePage(d, a, t.value);
            OneMore(m, bytes, m1, bytes1, St(), data[..], d, lo, a);
          } else {
            RangeSkipped(m, bytes, St(), data[..], d, lo, a, a + 1);
          }
        }
        a := a + 1;
      }
      r := newsz;
    }

    lemma NothingFreed(m: Vm, bytes: Pages, d: nat, lo: nat)
      requires |m.owner| == |bytes|
      ensures RangeFreed(m, bytes, m, bytes, d, lo, lo)
    {
    }

    lemma OneMore(m: Vm, bytes: Pages, m1: Vm, bytes1: Pages, m2: Vm, bytes2: Pages,
                  d: nat, lo: nat, a: nat)
      requires RangeFreed(m, bytes, m1, bytes1, d, lo, a) && RangeFreed(m1, bytes1, m2, bytes2, d, a, a + 1) && lo <= a
      ensures RangeFreed(m, bytes, m2, bytes2, d, lo, a + 1) && m2.spaces == m.spaces
    {
    }

    lemma EmptyTable(m: Vm, d: nat, vp: nat, last: nat)
      requires d < |m.tabs| && vp < KPAGE && m.tabs[d][vp / NPTENTRIES] == Absent
               && last == (vp / NPTENTRIES + 1) * NPTENTRIES - 1
      ensures vp <= last < KPAGE && last - vp < NPTENTRIES
      ensures forall x: nat :: vp <= x <= last ==> Flat(m.tabs, d, x) == Absent
    {
      forall x: nat | vp <= x <= last
        ensures Flat(m.tabs, d, x) == Absent
      {
        assert x / NPTENTRIES == vp / NPTENTRIES;
      }
    }

    /** The owner of a frame after address space d is gone. */
    static function Gone(o: Owner, f: nat, d: nat): Owner {
      if BelongsTo(o, f, d) then Free else o
    }

    /** State m' is m without address space d, whose frames are free. */
    ghost predicate SpaceFreed(m: Vm, bytes: Pages, m': Vm, bytes': Pages, d: nat) {
      && m'.spaces == m.spaces - {d} && |m.owner| == |m'.owner| == |bytes| == |bytes'|
      && OthersSame(m, m', d)
      && (forall f: nat :: f < |m.owner| ==> m'.owner[f] == Gone(m.owner[f], f, d))
      && (forall f: nat :: f < |m.owner| && m'.owner[f] != Free ==> bytes'[f] == bytes[f])
    }

    /** The owner of a frame when freevm has freed the tables of the first i directory entries. */
    static function TablesGone(o: Owner, f: nat, d: nat, i: nat): Owner {
      if o.Tab? && o.d == d && o.i < i then Free else if Structure(o, f, d) then Held else o
    }

    /** freevm. */
    method Freevm(d: nat)
      requires Valid() && d in spaces
      modifies this`free, this`owner, this`spaces, tabs, data
      ensures Valid() && SpaceFreed(old(St()), old(data[..]), St(), data[..], d)
    {
      hide VmOk, Flat, RangeFreed, SpaceFreed;
      ghost var m, bytes := St(), data[..];
      SpaceFacts(m, d, 0);
      var _ := Deallocuvm(d, KERNBASE, 0);
      ghost var m1, bytes1 := St(), data[..];
      UserFreed(m, bytes, m1, bytes1, d);
      SpaceDropped(m1, d);
      SpaceFacts(m1, d, 0);
      owner, spaces := Released(owner, d), spaces - {d};
      FreeTables(d, m1, bytes1);
      SpaceFacts(m1, d, 0);
      Kfree(d);
      AllFreed(m, bytes, m1, bytes1, St(), data[..], d);
    }

    lemma UserFreed(m: Vm, bytes: Pages, m1: Vm, bytes1: Pages, d: nat)
      requires RangeFreed(m, bytes, m1, bytes1, d, PgRoundUp(0), PgRoundUp(KERNBASE))
      ensures m1.spaces == m.spaces && |m1.owner| == |m.owner| == |bytes| == |bytes1|
      ensures forall vp: nat :: vp < KPAGE ==> Flat(m1.tabs, d, vp) == Absent
    {
      assert PgRoundUp(KERNBASE) == KPAGE;
    }

    /** The loop of freevm over the directory. */
    method FreeTables(d: nat, ghost m1: Vm, ghost bytes1: Pages)
      requires VmOk(m1) && d in m1.spaces && Valid() && d < tabs.Length
      requires St() == m1.(owner := Released(m1.owner, d), spaces := m1.spaces - {d}) && data[..] == bytes1
      modifies this`free, this`owner, tabs, data
      ensures Valid() && spaces == m1.spaces - {d} && |owner| == |m1.owner| == data.Length
      ensures forall f: nat :: f < |owner| ==> owner[f] == TablesGone(m1.owner[f], f, d, NPDENTRIES)
      ensures forall f: nat :: f < |owner| && owner[f] != Free ==> data[f] == bytes1[f]
      ensures forall e: nat, vp: nat :: e in spaces ==> Flat(tabs[..], e, vp) == Flat(m1.tabs, e, vp)
    {
      hide VmOk, Flat;
      SpaceFacts(m1, d, 0);
      var i := 0;
      while i < NPDENTRIES
        invariant i <= NPDENTRIES && Valid() && spaces == m1.spaces - {d}
        invariant |owner| == |m1.owner| == data.Length && tabs[d] == m1.tabs[d]
        invariant forall f: nat :: f < |owner| ==> owner[f] == TablesGone(m1.owner[f], f, d, i)
        invariant forall f: nat :: f < |owner| && owner[f] != Free ==> data[f] == bytes1[f]
        invariant forall e: nat, vp: nat :: e in spaces ==> Flat(tabs[..], e, vp) == Flat(m1.tabs, e, vp)
      {
        TableOwner(m1, d, i);
        if tabs[d][i].Present? {
          Kfree(tabs[d][i].frame);
        }
        i := i + 1;
      }
    }

    lemma TableOwner(m: Vm, d: nat, i: nat)
      requires VmOk(m) && d in m.spaces && d < |m.tabs| && i < NPDENTRIES
      ensures |m.owner| == |m.tabs| && m.owner[d] == Dir
      ensures m.tabs[d][i].Present? ==> m.tabs[d][i].frame < |m.owner| && m.owner[m.tabs[d][i].frame] == Tab(d, i)
      ensures forall f: nat :: f < |m.owner| && m.owner[f] == Tab(d, i) ==>
                m.tabs[d][i].Present? && m.tabs[d][i].frame == f
    {
      assert DirOk(m, d) && TabOk(m, d, i);
      forall f: nat | f < |m.owner| && m.owner[f] == Tab(d, i)
        ensures m.tabs[d][i].Present? && m.tabs[d][i].frame == f
      {
        assert FrameOk(m, f);
      }
    }

    lemma AllFreed(m: Vm, bytes: Pages, m1: Vm, bytes1: Pages, m2: Vm, bytes2: Pages, d: nat)
      requires VmOk(m1) && d in m.spaces && RangeFreed(m, bytes, m1, bytes1, d, PgRoundUp(0), PgRoundUp(KERNBASE))
               && VmOk(m)
      requires m2.spaces == m1.spaces - {d} && |m2.owner| == |m1.owner| == |bytes2| && d < |m2.owner|
      requires forall f: nat :: f < |m2.owner| ==>
                m2.owner[f] == if f == d then Free else TablesGone(m1.owner[f], f, d, NPDENTRIES)
      requires forall f: nat :: f < |m2.owner| && m2.owner[f] != Free ==> bytes2[f] == bytes1[f]
      requires forall e: nat, vp: nat :: e in m2.spaces ==> Flat(m2.tabs, e, vp) == Flat(m1.tabs, e, vp)
      ensures SpaceFreed(m, bytes, m2, bytes2, d)
    {
      assert PgRoundUp(KERNBASE) == KPAGE;
      forall f: nat | f < |m.owner|
        ensures m2.owner[f] == Gone(m.owner[f], f, d)
      {
        assert FrameOk(m, f) && FrameOk(m1, f) && DirOk(m, d);
      }
    }

    // ---- allocuvm --------------------------------------------------------------------------------------

    /** State m' is m with pages lo to hi of d mapped to zeroed frames of their own. */
    ghost predicate RangeMapped(m: Vm, bytes: Pages, m': Vm, bytes': Pages, d: nat, lo: nat, hi: nat) {
      && m'.spaces == m.spaces && OthersSame(m, m', d) && Grew(m, bytes, m', bytes', d, -1)
      && (forall vp: nat :: !(lo <= vp < hi) ==> Flat(m'.tabs, d, vp) == Flat(m.tabs, d, vp))
      && (forall vp: nat :: lo <= vp < hi ==> ZeroMapped(m', bytes', d, vp))
      && (forall f: nat :: f < |m.owner| && m'.owner[f] != m.owner[f] && m'.owner[f].Data? ==>
            lo <= m'.owner[f].vp < hi)
    }

    ghost predicate ZeroMapped(m: Vm, bytes: Pages, d: nat, vp: nat) {
      && Flat(m.tabs, d, vp).Present? && Flat(m.tabs, d, vp).flags == PTE_W + PTE_U
      && Flat(m.tabs, d, vp).frame < |m.owner| == |bytes| && m.owner[Flat(m.tabs, d, vp).frame] == Data(d, vp)
      && bytes[Flat(m.tabs, d, vp).frame] == ZeroPage()
    }

    /** State m' is m but for new, empty page tables of d. */
    ghost predicate OnlyTables(m: Vm, bytes: Pages, m': Vm, bytes': Pages, d: nat) {
      && m'.spaces == m.spaces && OthersSame(m, m', d)
      && (forall vp: nat :: Flat(m'.tabs, d, vp) == Flat(m.tabs, d, vp))
      && |m.owner| == |m'.owner| == |bytes| == |bytes'|
      && (forall f: nat :: f < |m.owner| ==>
            m'.owner[f] == m.owner[f] || (m.owner[f] == Free && m'.owner[f].Tab? && m'.owner[f].d == d))
      && (forall f: nat :: f < |m.owner| && m.owner[f] != Free ==> bytes'[f] == bytes[f])
    }

    /** State m' is m with pages lo to hi of d unmapped, their frames freed, and new, empty page tables of d. */
    ghost predicate RangeGone(m: Vm, bytes: Pages, m': Vm, bytes': Pages, d: nat, lo: nat, hi: nat) {
      && m'.spaces == m.spaces && OthersSame(m, m', d)
      && (forall vp: nat :: Flat(m'.tabs, d, vp) == if lo <= vp < hi then Absent else Flat(m.tabs, d, vp))
      && |m.owner| == |m'.owner| == |bytes| == |bytes'|
      && (forall f: nat :: f < |m.owner| ==>
            || m'.owner[f] == Unmapped(m.owner[f], d, lo, hi)
            || (m.owner[f] == Free && m'.owner[f].Tab? && m'.owner[f].d == d))
      && (forall f: nat :: f < |m.owner| && m.owner[f] != Free && m'.owner[f] != Free ==> bytes'[f] == bytes[f])
    }

    /** One page of allocuvm: a zeroed frame for page vp, or none and nothing but page tables changed. */
    method AllocPage(d: nat, vp: nat) returns (r: Mapping)
      requires Valid() && d in spaces && vp < KPAGE
      modifies this`free, this`owner, tabs, data
      ensures Valid() && d in spaces && (r == NoMemory ==> free == [] || |free| == 1)
      ensures r == Panicked <==> Flat(old(tabs[..]), d, vp).Present? && old(free) != []
      ensures r == Done ==> Flat(old(tabs[..]), d, vp) == Absent && Spent(old(St()), St(), d, 1, {vp / NPTENTRIES})
      ensures r == NoMemory ==>
                |old(free)| < 1 + if vp / NPTENTRIES in TableSlots(old(tabs[..]), d) then 0 else 1
      ensures r == NoMemory && Flat(old(tabs[..]), d, vp).Present? ==> old(free) == []
      ensures r == Done ==> RangeMapped(old(St()), old(data[..]), St(), data[..], d, vp, vp + 1)
      ensures r == NoMemory ==> OnlyTables(old(St()), old(data[..]), St(), data[..], d)
    {
      hide VmOk, Flat, TableSlots;
      ghost var m, bytes := St(), data[..];
      SpaceFacts(m, d, vp);
      var mem := Kalloc();
      if mem.None? {
        return NoMemory;
      }
      SlotsKept(m.tabs, m.tabs[mem.value := Zeroed()], d);
      Clear(mem.value);
      r := MapPage(d, vp, mem.value, PTE_W + PTE_U);
      SpaceFacts(St(), d, vp);
      if r == NoMemory {
        Kfree(mem.value);
      }
    }

    /** Page p of the range is mapped already, no earlier one is, and the free frames last that far. */
    static predicate RemapsAt(ts: seq<Table>, frames: nat, d: nat, lo: nat, hi: nat, p: nat) {
      lo <= p < hi && NonePresent(ts, d, lo, p) && Flat(ts, d, p).Present? && frames > Needed(ts, d, lo, p)
    }

    static predicate Remaps(ts: seq<Table>, frames: nat, d: nat, lo: nat, hi: nat) {
      exists p: nat | lo <= p < hi :: RemapsAt(ts, frames, d, lo, hi, p)
    }

    /** allocuvm; None is the panic for a page that is mapped already, and ok distinguishes success from failure where
        the new size is 0. Which of the three it is can be told from the map and the number of free frames before. After
        failure nothing is mapped in the range, whatever was: all is as before, up to tables, exactly if nothing was. */
    method Allocuvm(d: nat, oldsz: nat, newsz: nat) returns (r: Option<nat>, ghost ok: bool)
      requires Valid() && d in spaces
      modifies this`free, this`owner, tabs, data
      ensures Valid() && d in spaces
      ensures newsz >= KERNBASE || newsz < oldsz ==>
                && r == Some(if newsz >= KERNBASE then 0 else oldsz)
                && St() == old(St()) && data[..] == old(data[..])
      ensures r.None? <==>
                oldsz <= newsz < KERNBASE && Remaps(old(tabs[..]), |old(free)|, d, PgRoundUp(oldsz), PgRoundUp(newsz))
      ensures ok <==>
                && oldsz <= newsz < KERNBASE && NonePresent(old(tabs[..]), d, PgRoundUp(oldsz), PgRoundUp(newsz))
                && |old(free)| >= Needed(old(tabs[..]), d, PgRoundUp(oldsz), PgRoundUp(newsz))
      ensures ok ==>
                && r == Some(newsz)
                && RangeMapped(old(St()), old(data[..]), St(), data[..], d, PgRoundUp(oldsz), PgRoundUp(newsz))
                && |free| == |old(free)| - Needed(old(tabs[..]), d, PgRoundUp(oldsz), PgRoundUp(newsz))
                && UserMayWrite(tabs[..], d, PgRoundUp(oldsz), PgRoundUp(newsz))
      ensures oldsz <= newsz < KERNBASE && r.Some? && !ok ==>
                && r.value == 0
                && RangeGone(old(St()), old(data[..]), St(), data[..], d, PgRoundUp(oldsz), PgRoundUp(newsz))
                && (OnlyTables(old(St()), old(data[..]), St(), data[..], d) <==>
                    NonePresent(old(tabs[..]), d, PgRoundUp(oldsz), PgRoundUp(newsz)))
    {
      hide VmOk, Flat, RangeMapped, RangeGone, OnlyTables, RangeFreed, Spent, Needed, Remaps, NonePresent, TableSlots;
      hide UserMayWrite;
      ok := false;
      if newsz >= KERNBASE {
        return Some(0), ok;
      }
      if newsz < oldsz {
        return Some(oldsz), ok;
      }
      ghost var m, bytes, lo, hi := St(), data[..], PgRoundUp(oldsz), PgRoundUp(newsz);
      SpaceFacts(m, d, 0);
      NothingYet(m, bytes, d, lo);
      var a := PgRoundUp(oldsz);
      while a * PGSIZE < newsz
        invariant lo <= a <= hi && Valid() && d in spaces
        invariant RangeMapped(m, bytes, St(), data[..], d, lo, a) && NonePresent(m.tabs, d, lo, a)
        invariant Spent(m, St(), d, a - lo, SlotsOf(lo, a))
        decreases hi - a
      {
        ghost var m1, bytes1 := St(), data[..];
        StillAbsent(m, bytes, m1, bytes1, d, lo, a);
        SpentIsNeeded(m, m1, d, lo, a);
        SpaceFacts(m1, d, a);
        var page := AllocPage(d, a);
        if page == Panicked {
          RemapsHere(m, d, lo, hi, a);
          return None, false;
        }
        if page == NoMemory {
          TooFewFrames(m, d, lo, hi, a);
          MappedThenTables(m, bytes, m1, bytes1, St(), data[..], d, lo, a);
          ghost var m2, bytes2 := St(), data[..];
          var _ := Deallocuvm(d, newsz, oldsz);
          AllUndone(m, bytes, m2, bytes2, St(), data[..], d, lo, a, hi);
          RestoredIfNone(m, bytes, St(), data[..], d, lo, hi);
          return Some(0), false;
        }
        MappedMore(m, bytes, m1, bytes1, St(), data[..], d, lo, a);
        NextAbsent(m, d, lo, a);
        SpentMore(m, m1, St(), d, a - lo, lo, a, 1);
        a := a + 1;
      }
      SpentIsNeeded(m, St(), d, lo, a);
      MappedGrants(m, bytes, St(), data[..], d, lo, hi);
      NoRemap(m, d, lo, hi);
      r, ok := Some(newsz), true;
    }

    /** The processor lets the user read and write pages lo to hi. */
    static predicate UserMayWrite(ts: seq<Table>, d: nat, lo: nat, hi: nat) {
      forall vp: nat | lo <= vp < hi :: Grants(ts, d, vp, 4) && Grants(ts, d, vp, 2)
    }

    lemma MappedGrants(m: Vm, bytes: Pages, m': Vm, bytes': Pages, d: nat, lo: nat, hi: nat)
      requires RangeMapped(m, bytes, m', bytes', d, lo, hi) && VmOk(m') && d in m'.spaces && hi <= PAGES
      ensures UserMayWrite(m'.tabs, d, lo, hi)
    {
      hide VmOk, Flat, Grants;
      forall vp: nat | lo <= vp < hi
        ensures Grants(m'.tabs, d, vp, 4) && Grants(m'.tabs, d, vp, 2)
      {
        assert ZeroMapped(m', bytes', d, vp);
        EntryDecides(m', d, vp);
      }
    }

    lemma NextAbsent(m: Vm, d: nat, lo: nat, a: nat)
      requires NonePresent(m.tabs, d, lo, a) && Flat(m.tabs, d, a) == Absent
      ensures NonePresent(m.tabs, d, lo, a + 1)
    {
    }

    lemma NoRemap(m: Vm, d: nat, lo: nat, hi: nat)
      requires NonePresent(m.tabs, d, lo, hi)
      ensures !Remaps(m.tabs, |m.free|, d, lo, hi)
    {
      hide Flat, Needed;
    }

    lemma RemapsHere(m: Vm, d: nat, lo: nat, hi: nat, a: nat)
      requires RemapsAt(m.tabs, |m.free|, d, lo, hi, a)
      ensures Remaps(m.tabs, |m.free|, d, lo, hi) && !NonePresent(m.tabs, d, lo, hi)
    {
      hide Flat, Needed;
    }

    /** Out of frames at page a: the range cannot succeed, and no page that is mapped already is reached. */
    lemma TooFewFrames(m: Vm, d: nat, lo: nat, hi: nat, a: nat)
      requires lo <= a < hi && NonePresent(m.tabs, d, lo, a) && |m.free| < Needed(m.tabs, d, lo, a + 1)
      requires Flat(m.tabs, d, a).Present? ==> |m.free| <= Needed(m.tabs, d, lo, a)
      ensures |m.free| < Needed(m.tabs, d, lo, hi) && !Remaps(m.tabs, |m.free|, d, lo, hi)
    {
      hide Flat, Needed;
      NeededGrows(m.tabs, d, lo, a + 1, hi);
      forall p: nat
        ensures !RemapsAt(m.tabs, |m.free|, d, lo, hi, p)
      {
        if p > a {
          NeededGrows(m.tabs, d, lo, a + 1, p);
        }
      }
    }

    lemma NothingYet(m: Vm, bytes: Pages, d: nat, lo: nat)
      requires |m.owner| == |bytes|
      ensures RangeMapped(m, bytes, m, bytes, d, lo, lo) && NonePresent(m.tabs, d, lo, lo)
      ensures Spent(m, m, d, 0, SlotsOf(lo, lo))
    {
    }

    lemma StillAbsent(m: Vm, bytes: Pages, m1: Vm, bytes1: Pages, d: nat, lo: nat, a: nat)
      requires RangeMapped(m, bytes, m1, bytes1, d, lo, a)
      ensures Flat(m1.tabs, d, a) == Flat(m.tabs, d, a)
    {
    }

    lemma MappedMore(m: Vm, bytes: Pages, m1: Vm, bytes1: Pages, m2: Vm, bytes2: Pages,
                     d: nat, lo: nat, a: nat)
      requires RangeMapped(m, bytes, m1, bytes1, d, lo, a) && RangeMapped(m1, bytes1, m2, bytes2, d, a, a + 1)
               && lo <= a
      ensures RangeMapped(m, bytes, m2, bytes2, d, lo, a + 1) && m2.spaces == m.spaces
    {
      hide Flat, ZeroPage;
      forall vp: nat | lo <= vp < a + 1
        ensures ZeroMapped(m2, bytes2, d, vp)
      {
        if vp < a {
          assert ZeroMapped(m1, bytes1, d, vp);
        } else {
          assert ZeroMapped(m2, bytes2, d, a);
        }
      }
    }

    /** The range mapped so far, and more page tables. */
    ghost predicate RangeOrTables(m: Vm, bytes: Pages, m': Vm, bytes': Pages, d: nat, lo: nat, hi: nat) {
      && m'.spaces == m.spaces && OthersSame(m, m', d) && Grew(m, bytes, m', bytes', d, -1)
      && (forall vp: nat :: !(lo <= vp < hi) ==> Flat(m'.tabs, d, vp) == Flat(m.tabs, d, vp))
      && (forall f: nat :: f < |m.owner| && m'.owner[f] != m.owner[f] && m'.owner[f].Data? ==>
            lo <= m'.owner[f].vp < hi)
    }

    lemma MappedThenTables(m: Vm, bytes: Pages, m1: Vm, bytes1: Pages, m2: Vm, bytes2: Pages,
                           d: nat, lo: nat, a: nat)
      requires RangeMapped(m, bytes, m1, bytes1, d, lo, a) && OnlyTables(m1, bytes1, m2, bytes2, d)
      ensures RangeOrTables(m, bytes, m2, bytes2, d, lo, a) && m2.spaces == m.spaces
    {
      hide Flat;
    }

    /** Failure: deallocuvm takes the whole range back, and what was mapped there before with it. */
    lemma AllUndone(m: Vm, bytes: Pages, m2: Vm, bytes2: Pages, m3: Vm, bytes3: Pages,
                    d: nat, lo: nat, a: nat, hi: nat)
      requires VmOk(m) && VmOk(m3) && d in m.spaces && lo <= a < hi <= KPAGE
      requires RangeOrTables(m, bytes, m2, bytes2, d, lo, a) && RangeFreed(m2, bytes2, m3, bytes3, d, lo, hi)
      ensures RangeGone(m, bytes, m3, bytes3, d, lo, hi)
    {
      hide VmOk, Flat;
      forall f: nat | f < |m.owner|
        ensures m3.owner[f] == Unmapped(m.owner[f], d, lo, hi)
                || (m.owner[f] == Free && m3.owner[f].Tab? && m3.owner[f].d == d)
        ensures m.owner[f] != Free && m3.owner[f] != Free ==> bytes3[f] == bytes[f]
      {
        assert FrameGrew(m.owner[f], m2.owner[f], bytes[f], bytes2[f], f, d);
        NotNewDirectory(m, m3, d, f);
      }
    }

    /** Everything is back, up to page tables, exactly if nothing was mapped in the range. */
    lemma RestoredIfNone(m: Vm, bytes: Pages, m': Vm, bytes': Pages, d: nat, lo: nat, hi: nat)
      requires VmOk(m) && hi <= KPAGE && RangeGone(m, bytes, m', bytes', d, lo, hi)
      ensures OnlyTables(m, bytes, m', bytes', d) <==> NonePresent(m.tabs, d, lo, hi)
    {
      hide VmOk, Flat;
      if NonePresent(m.tabs, d, lo, hi) {
        forall f: nat | f < |m.owner|
          ensures Unmapped(m.owner[f], d, lo, hi) == m.owner[f]
        {
          if m.owner[f].Data? && m.owner[f].d == d && lo <= m.owner[f].vp < hi {
            NothingMapped(m, d, m.owner[f].vp);
          }
        }
      } else {
        var vp: nat :| lo <= vp < hi && Flat(m.tabs, d, vp) != Absent;
        assert Flat(m'.tabs, d, vp) == Absent;
      }
    }

    lemma NotNewDirectory(m: Vm, m3: Vm, d: nat, f: nat)
      requires VmOk(m) && VmOk(m3) && m3.spaces == m.spaces && f < |m.owner| && |m.owner| == |m3.owner|
      ensures m.owner[f] == Free ==> m3.owner[f] != Dir
    {
      assert FrameOk(m3, f) && DirOk(m, f);
    }

    // ---- setupkvm --------------------------------------------------------------------------------------

    /** The kernel part of every address space. */
    static function KernelMap(rs: seq<Region>, vp: nat): Pte {
      if rs == [] then Absent
      else
        var r := rs[|rs| - 1];
        if r.vp <= vp < r.vp + r.count then Present(r.pa + (vp - r.vp), r.perm) else KernelMap(rs[..|rs| - 1], vp)
    }

    /** The directory entries of the kernel part. */
    static function KernelSlots(rs: seq<Region>): set<nat> {
      if rs == [] then {}
      else
        var r := rs[|rs| - 1];
        KernelSlots(rs[..|rs| - 1]) + SlotsOf(r.vp, r.vp + r.count)
    }

    static lemma {:induction false} KernelSlotsGrow(rs: seq<Region>, k: nat)
      requires k <= |rs|
      ensures KernelSlots(rs[..k]) <= KernelSlots(rs)
    {
      if k < |rs| {
        KernelSlotsGrow(rs[..|rs| - 1], k);
        assert rs[..|rs| - 1][..k] == rs[..k];
      } else {
        assert rs[..k] == rs;
      }
    }

    static lemma RowSlots(rs: seq<Region>, row: Region, j: nat)
      requires j < row.count
      ensures KernelSlots(rs + [row.(count := j + 1)])
              == KernelSlots(rs + [row.(count := j)]) + {(row.vp + j) / NPTENTRIES}
      ensures KernelSlots(rs + [row.(count := j + 1)]) <= KernelSlots(rs + [row])
    {
      assert (rs + [row.(count := j)])[..|rs|] == rs && (rs + [row.(count := j + 1)])[..|rs|] == rs;
      assert (rs + [row])[..|rs|] == rs;
      assert SlotsOf(row.vp, row.vp + (j + 1)) == SlotsOf(row.vp, row.vp + j) + {(row.vp + j) / NPTENTRIES};
    }

    /** Directory d has tables for these slots and nothing else, and with it they cost what is missing from free0. */
    static ghost predicate Built(free0: nat, m: Vm, d: nat, slots: set<nat>) {
      TableSlots(m.tabs, d) == slots && |m.free| + 1 + |slots| == free0
    }

    /** The rows of kmap lie above KERNBASE and do not overlap. */
    ghost predicate KmapOk() {
      && (forall k :: 0 <= k < |kmap| ==> KPAGE <= kmap[k].vp && kmap[k].vp + kmap[k].count <= PAGES)
      && (forall k, l :: 0 <= k < l < |kmap| ==> kmap[k].vp + kmap[k].count <= kmap[l].vp)
    }

    lemma {:induction false} KernelMapBelow(k: nat, vp: nat)
      requires KmapOk() && k <= |kmap|
      ensures (forall l :: 0 <= l < k ==> kmap[l].vp + kmap[l].count <= vp) ==> KernelMap(kmap[..k], vp) == Absent
      ensures vp < KPAGE ==> KernelMap(kmap[..k], vp) == Absent
    {
      if k > 0 {
        KernelMapBelow(k - 1, vp);
        assert kmap[..k][..k - 1] == kmap[..k - 1];
      }
    }

    /** What setupkvm has built: a new address space d on frames that were free, with kernel map rs and no user pages.
        */
    ghost predicate KernelSpace(m: Vm, bytes: Pages, m': Vm, bytes': Pages, d: nat, rs: seq<Region>) {
      && m'.spaces == m.spaces + {d} && d !in m.spaces && OthersSame(m, m', d) && Grew(m, bytes, m', bytes', d, -1)
      && forall vp: nat :: Flat(m'.tabs, d, vp) == KernelMap(rs, vp)
    }

    /** kalloc and memset of a directory. */
    method NewDirectory() returns (r: Option<nat>)
      requires Valid()
      modifies this`free, this`owner, this`spaces, tabs, data
      ensures Valid()
      ensures r.None? ==> St() == old(St()) && data[..] == old(data[..])
      ensures r.Some? ==> KernelSpace(old(St()), old(data[..]), St(), data[..], r.value, [])
      ensures r.None? <==> old(free) == []
      ensures r.Some? ==> Built(|old(free)|, St(), r.value, {})
    {
      hide VmOk, Flat;
      FreeFacts(St());
      var pgdir := Kalloc();
      if pgdir.None? {
        return None;
      }
      var d := pgdir.value;
      Clear(d);
      SpaceAdded(St(), d);
      owner, spaces := owner[d := Dir], spaces + {d};
      r := Some(d);
    }

    /** setupkvm. */
    method Setupkvm() returns (r: Option<nat>)
      requires Valid() && KmapOk()
      modifies this`free, this`owner, this`spaces, tabs, data
      ensures Valid()
      ensures r.None? ==> Restored(old(St()), old(data[..]), St(), data[..])
      ensures r.Some? ==> KernelSpace(old(St()), old(data[..]), St(), data[..], r.value, kmap)
      ensures r.Some? <==> |old(free)| >= 1 + |KernelSlots(kmap)|
      ensures r.Some? ==> Built(|old(free)|, St(), r.value, KernelSlots(kmap))
      ensures r.Some? ==> KernelGrants(tabs[..], r.value, kmap)
    {
      hide VmOk, Flat, KernelSpace, KernelMap, SpaceFreed, Restored, Built, KernelGrants;
      ghost var m, bytes := St(), data[..];
      FreeFacts(m);
      var pgdir := NewDirectory();
      if pgdir.None? {
        RestoredSelf(m, bytes);
        return None;
      }
      var d, k := pgdir.value, 0;
      assert kmap[..0] == [];
      while k < |kmap|
        invariant k <= |kmap| && Valid() && KernelSpace(m, bytes, St(), data[..], d, kmap[..k])
        invariant Built(|m.free|, St(), d, KernelSlots(kmap[..k]))
      {
        var ok := MapRegion(m, bytes, d, k);
        SpaceIn(m, bytes, St(), data[..], d);
        if !ok {
          ghost var m1, bytes1 := St(), data[..];
          Freevm(d);
          GoneAgain(m, bytes, m1, bytes1, St(), data[..], d);
          return None;
        }
        k := k + 1;
      }
      assert kmap[..k] == kmap;
      BuiltCost(|m.free|, St(), d, KernelSlots(kmap));
      SpaceGrants(m, bytes, St(), data[..], d, kmap);
      r := Some(d);
    }

    /** The processor grants what the rows of the kernel map say, and nothing elsewhere. */
    static ghost predicate KernelGrants(ts: seq<Table>, d: nat, rs: seq<Region>) {
      forall vp: nat, bit: nat :: vp < PAGES && (bit == 2 || bit == 4) ==>
        (Grants(ts, d, vp, bit) <==> KernelMap(rs, vp).Present? && HasFlag(KernelMap(rs, vp).flags, bit))
    }

    lemma SpaceGrants(m: Vm, bytes: Pages, m': Vm, bytes': Pages, d: nat, rs: seq<Region>)
      requires KernelSpace(m, bytes, m', bytes', d, rs) && VmOk(m')
      ensures KernelGrants(m'.tabs, d, rs)
    {
      hide VmOk, Flat, Grants, KernelMap;
      forall vp: nat, bit: nat | vp < PAGES && (bit == 2 || bit == 4)
        ensures Grants(m'.tabs, d, vp, bit) <==> KernelMap(rs, vp).Present? && HasFlag(KernelMap(rs, vp).flags, bit)
      {
        EntryDecides(m', d, vp);
      }
    }

    static lemma BuiltCost(free0: nat, m: Vm, d: nat, slots: set<nat>)
      requires Built(free0, m, d, slots)
      ensures free0 >= 1 + |slots|
    {
    }

    /** One more page wants a table that cannot be had. */
    static lemma TooFewToBuild(free0: nat, m: Vm, d: nat, slots: set<nat>, i: nat, all: set<nat>)
      requires Built(free0, m, d, slots) && m.free == [] && i !in slots && slots + {i} <= all
      ensures free0 < 1 + |all|
    {
      SubsetSmaller(slots + {i}, all);
    }

    lemma SpaceIn(m: Vm, bytes: Pages, m': Vm, bytes': Pages, d: nat)
      requires NewSpace(m, bytes, m', bytes', d)
      ensures d in m'.spaces
    {
    }

    /** A new address space d on frames that were free. */
    ghost predicate NewSpace(m: Vm, bytes: Pages, m': Vm, bytes': Pages, d: nat) {
      m'.spaces == m.spaces + {d} && d !in m.spaces && OthersSame(m, m', d) && Grew(m, bytes, m', bytes', d, -1)
    }

    /** Everything is as it was, up to the order of the free list and what free frames hold. */
    ghost predicate Restored(m: Vm, bytes: Pages, m': Vm, bytes': Pages) {
      && m'.spaces == m.spaces && m'.owner == m.owner && |m.owner| == |bytes| == |bytes'|
      && (forall e: nat, vp: nat :: e in m.spaces ==> Flat(m'.tabs, e, vp) == Flat(m.tabs, e, vp))
      && (forall f: nat :: f < |m.owner| && m.owner[f] != Free ==> bytes'[f] == bytes[f])
    }

    lemma RestoredSelf(m: Vm, bytes: Pages)
      requires |m.owner| == |bytes|
      ensures Restored(m, bytes, m, bytes)
    {
    }

    /** Building an address space and freeing it again gives every frame back. */
    lemma GoneAgain(m: Vm, bytes: Pages, m1: Vm, bytes1: Pages, m2: Vm, bytes2: Pages, d: nat)
      requires VmOk(m) && NewSpace(m, bytes, m1, bytes1, d) && SpaceFreed(m1, bytes1, m2, bytes2, d)
      ensures Restored(m, bytes, m2, bytes2)
    {
      forall f: nat | f < |m.owner|
        ensures m2.owner[f] == m.owner[f] && (m.owner[f] != Free ==> bytes2[f] == bytes[f])
      {
        assert FrameOk(m, f) && FrameGrew(m.owner[f], m1.owner[f], bytes[f], bytes1[f], f, d);
      }
    }

    /** mappages for row k of kmap. */
    method MapRegion(ghost m: Vm, ghost bytes: Pages, d: nat, k: nat) returns (ok: bool)
      requires Valid() && KmapOk() && k < |kmap| && KernelSpace(m, bytes, St(), data[..], d, kmap[..k])
      requires Built(|m.free|, St(), d, KernelSlots(kmap[..k]))
      modifies this`free, this`owner, tabs, data
      ensures Valid() && NewSpace(m, bytes, St(), data[..], d)
      ensures ok ==> KernelSpace(m, bytes, St(), data[..], d, kmap[..k + 1])
      ensures ok ==> Built(|m.free|, St(), d, KernelSlots(kmap[..k + 1]))
      ensures !ok ==> |m.free| < 1 + |KernelSlots(kmap)|
    {
      hide VmOk, Flat, KernelMap, KernelSlots, TableSlots;
      var row := kmap[k];
      var j := 0;
      EmptyRow(kmap[..k], row);
      while j < row.count
        invariant j <= row.count && Valid()
        invariant KernelSpace(m, bytes, St(), data[..], d, kmap[..k] + [row.(count := j)])
        invariant Built(|m.free|, St(), d, KernelSlots(kmap[..k] + [row.(count := j)]))
      {
        ghost var m1 := St();
        RowBelow(k, j);
        RowSlots(kmap[..k], row, j);
        var r := MapPage(d, row.vp + j, row.pa + j, row.perm);
        if r != Done {
          KernelSlotsGrow(kmap, k + 1);
          assert kmap[..k] + [row] == kmap[..k + 1];
          TooFewToBuild(|m.free|, m1, d, KernelSlots(kmap[..k] + [row.(count := j)]), (row.vp + j) / NPTENTRIES,
                        KernelSlots(kmap));
          return false;
        }
        RowGrown(kmap[..k], row, j);
        j := j + 1;
      }
      assert kmap[..k] + [row.(count := j)] == kmap[..k + 1];
      ok := true;
    }

    static lemma EmptyRow(rs: seq<Region>, row: Region)
      ensures forall vp: nat :: KernelMap(rs + [row.(count := 0)], vp) == KernelMap(rs, vp)
      ensures KernelSlots(rs + [row.(count := 0)]) == KernelSlots(rs)
    {
      assert (rs + [row.(count := 0)])[..|rs|] == rs;
    }

    static lemma RowGrown(rs: seq<Region>, row: Region, j: nat)
      ensures forall vp: nat :: KernelMap(rs + [row.(count := j + 1)], vp) ==
                if vp == row.vp + j then Present(row.pa + j, row.perm) else KernelMap(rs + [row.(count := j)], vp)
    {
      var before, after := rs + [row.(count := j)], rs + [row.(count := j + 1)];
      assert before[..|rs|] == rs && after[..|rs|] == rs;
      forall vp: nat
        ensures KernelMap(after, vp) == if vp == row.vp + j then Present(row.pa + j, row.perm)
                                        else KernelMap(before, vp)
      {
        assert after[|after| - 1] == row.(count := j + 1) && before[|before| - 1] == row.(count := j);
      }
    }

    lemma RowBelow(k: nat, j: nat)
      requires KmapOk() && k < |kmap| && j < kmap[k].count
      ensures KernelMap(kmap[..k] + [kmap[k].(count := j)], kmap[k].vp + j) == Absent
      ensures KPAGE <= kmap[k].vp + j < PAGES
    {
      KernelMapBelow(k, kmap[k].vp + j);
      assert (kmap[..k] + [kmap[k].(count := j)])[..k] == kmap[..k];
    }

    // ---- copyuvm ---------------------------------------------------------------------------------------

    /** Page vp of c is a copy of page vp of d on a frame of its own. */
    ghost predicate Copied(m: Vm, bytes: Pages, m': Vm, bytes': Pages, d: nat, c: nat, vp: nat) {
      && |m.owner| == |m'.owner| == |bytes| == |bytes'|
      && Flat(m.tabs, d, vp).Present? && Flat(m'.tabs, c, vp).Present?
      && Flat(m'.tabs, c, vp).flags == Flat(m.tabs, d, vp).flags
      && Flat(m.tabs, d, vp).frame < |m.owner| && Flat(m'.tabs, c, vp).frame < |m.owner|
      && m'.owner[Flat(m'.tabs, c, vp).frame] == Data(c, vp)
      && bytes'[Flat(m'.tabs, c, vp).frame] == bytes[Flat(m.tabs, d, vp).frame]
    }

    /** State m' is m and an address space c whose first n pages are copies of those of d. */
    ghost predicate CopiedTo(m: Vm, bytes: Pages, m': Vm, bytes': Pages, d: nat, c: nat, n: nat, rs: seq<Region>) {
      && NewSpace(m, bytes, m', bytes', c)
      && (forall vp: nat :: vp < n ==> Copied(m, bytes, m', bytes', d, c, vp))
      && (forall vp: nat :: vp >= n ==> Flat(m'.tabs, c, vp) == KernelMap(rs, vp))
    }

    /** The frames a copy of n pages takes: a directory, the pages, and tables for them and for the kernel. */
    function CopyCost(n: nat): nat {
      1 + n + |KernelSlots(kmap) + SlotsOf(0, n)|
    }

    /** Page p is not present, all earlier ones are, and the free frames last to copy those. */
    predicate MissingAt(ts: seq<Table>, frames: nat, d: nat, hi: nat, p: nat) {
      p < hi && AllPresent(ts, d, p) && Flat(ts, d, p) == Absent && frames >= CopyCost(p)
    }

    predicate Missing(ts: seq<Table>, frames: nat, d: nat, hi: nat) {
      exists p: nat | p < hi :: MissingAt(ts, frames, d, hi, p)
    }

    /** copyuvm: a copy, 0, or the panic for a page that is not present. Which of the three it is can be told from the
        map and the number of free frames before. */
    method Copyuvm(d: nat, sz: nat) returns (r: Copying)
      requires Valid() && KmapOk() && d in spaces && sz <= KERNBASE
      modifies this`free, this`owner, this`spaces, tabs, data
      ensures Valid()
      ensures r.CopyPanicked? <==> Missing(old(tabs[..]), |old(free)|, d, PgRoundUp(sz))
      ensures r.CopiedAs? <==>
                AllPresent(old(tabs[..]), d, PgRoundUp(sz)) && |old(free)| >= CopyCost(PgRoundUp(sz))
      ensures r.NotCopied? ==> Restored(old(St()), old(data[..]), St(), data[..])
      ensures r.CopiedAs? ==>
                && CopiedTo(old(St()), old(data[..]), St(), data[..], d, r.c, PgRoundUp(sz), kmap)
                && |free| == |old(free)| - CopyCost(PgRoundUp(sz))
                && SameGrants(old(tabs[..]), d, tabs[..], r.c, PgRoundUp(sz))
    {
      hide VmOk, Flat, KernelMap, SpaceFreed, Restored, CopiedTo, KernelSpace, NewSpace, KmapOk;
      hide CopyCost, Missing, AllPresent, CopyBuilt, Built, KernelSlots, SlotsOf, SameGrants, KernelGrants;
      ghost var m, bytes, hi := St(), data[..], PgRoundUp(sz);
      SpaceFacts(m, d, 0);
      var made := Setupkvm();
      if made.None? {
        NoCopyAtAll(m, d, hi);
        return NotCopied;
      }
      var c, i := made.value, 0;
      NothingCopied(m, bytes, St(), data[..], d, c);
      while i * PGSIZE < sz
        invariant i <= hi && Valid() && CopiedTo(m, bytes, St(), data[..], d, c, i, kmap)
        invariant AllPresent(m.tabs, d, i) && CopyBuilt(m, St(), c, i)
        decreases KPAGE - i
      {
        ghost var m1 := St();
        CopyBuiltCost(m, m1, c, i);
        var page := CopyPage(m, bytes, d, c, i);
        if page == Panicked {
          MissingHere(m, d, hi, i);
          return CopyPanicked;
        }
        CopySpace(m, bytes, St(), data[..], c);
        if page == NoMemory {
          TooFewToCopy(m, d, hi, i);
          ghost var m2, bytes2 := St(), data[..];
          Freevm(c);
          GoneAgain(m, bytes, m2, bytes2, St(), data[..], c);
          return NotCopied;
        }
        NextPresent(m, d, i);
        CopyBuiltMore(m, m1, St(), c, i);
        i := i + 1;
      }
      CopyBuiltCost(m, St(), c, i);
      NoneMissing(m, d, hi);
      CopyGrants(m, bytes, St(), data[..], d, c, hi);
      r := CopiedAs(c);
    }

    /** The processor grants the same rights to the first n pages of both. */
    static ghost predicate SameGrants(ts: seq<Table>, d: nat, ts': seq<Table>, c: nat, n: nat) {
      forall vp: nat, bit: nat :: vp < n && (bit == 2 || bit == 4) ==>
        (Grants(ts', c, vp, bit) <==> Grants(ts, d, vp, bit))
    }

    lemma CopyGrants(m: Vm, bytes: Pages, m': Vm, bytes': Pages, d: nat, c: nat, n: nat)
      requires CopiedTo(m, bytes, m', bytes', d, c, n, kmap) && VmOk(m) && VmOk(m') && d in m.spaces && n <= PAGES
      ensures SameGrants(m.tabs, d, m'.tabs, c, n)
    {
      hide VmOk, Flat, Grants;
      forall vp: nat, bit: nat | vp < n && (bit == 2 || bit == 4)
        ensures Grants(m'.tabs, c, vp, bit) <==> Grants(m.tabs, d, vp, bit)
      {
        assert Copied(m, bytes, m', bytes', d, c, vp);
        EntryDecides(m, d, vp);
        EntryDecides(m', c, vp);
      }
    }

    /** What the copy c of i pages has cost. */
    ghost predicate CopyBuilt(m: Vm, m': Vm, c: nat, i: nat) {
      && TableSlots(m'.tabs, c) == KernelSlots(kmap) + SlotsOf(0, i)
      && |m'.free| + 1 + i + |TableSlots(m'.tabs, c)| == |m.free|
    }

    lemma CopyBuiltCost(m: Vm, m': Vm, c: nat, i: nat)
      requires CopyBuilt(m, m', c, i)
      ensures |m'.free| == |m.free| - CopyCost(i)
      ensures CopyCost(i + 1) == CopyCost(i) + 1 + if i / NPTENTRIES in TableSlots(m'.tabs, c) then 0 else 1
    {
      hide TableSlots, KernelSlots, SlotsOf;
      var slots := TableSlots(m'.tabs, c);
      SlotsNext(0, i);
      assert KernelSlots(kmap) + SlotsOf(0, i + 1) == slots + {i / NPTENTRIES};
      UnionSize(slots, {i / NPTENTRIES});
    }

    lemma CopyBuiltMore(m: Vm, m1: Vm, m2: Vm, c: nat, i: nat)
      requires CopyBuilt(m, m1, c, i) && Spent(m1, m2, c, 1, {i / NPTENTRIES})
      ensures CopyBuilt(m, m2, c, i + 1)
    {
      hide TableSlots, KernelSlots;
      assert SlotsOf(0, i + 1) == SlotsOf(0, i) + {i / NPTENTRIES};
    }

    lemma CopyCostGrows(a: nat, b: nat)
      requires a <= b
      ensures CopyCost(a) <= CopyCost(b) && CopyCost(a) >= 1 + |KernelSlots(kmap)|
    {
      SubsetSmaller(KernelSlots(kmap) + SlotsOf(0, a), KernelSlots(kmap) + SlotsOf(0, b));
      SubsetSmaller(KernelSlots(kmap), KernelSlots(kmap) + SlotsOf(0, a));
    }

    lemma NextPresent(m: Vm, d: nat, i: nat)
      requires AllPresent(m.tabs, d, i) && Flat(m.tabs, d, i).Present?
      ensures AllPresent(m.tabs, d, i + 1)
    {
    }

    lemma NoneMissing(m: Vm, d: nat, hi: nat)
      requires AllPresent(m.tabs, d, hi)
      ensures !Missing(m.tabs, |m.free|, d, hi)
    {
      hide Flat, CopyCost;
    }

    lemma MissingHere(m: Vm, d: nat, hi: nat, i: nat)
      requires MissingAt(m.tabs, |m.free|, d, hi, i)
      ensures Missing(m.tabs, |m.free|, d, hi) && !AllPresent(m.tabs, d, hi)
    {
      hide Flat, CopyCost;
    }

    lemma NoCopyAtAll(m: Vm, d: nat, hi: nat)
      requires |m.free| < 1 + |KernelSlots(kmap)|
      ensures !Missing(m.tabs, |m.free|, d, hi) && |m.free| < CopyCost(hi)
    {
      hide Flat, CopyCost, AllPresent;
      CopyCostGrows(hi, hi);
      forall p: nat
        ensures !MissingAt(m.tabs, |m.free|, d, hi, p)
      {
        CopyCostGrows(p, p);
      }
    }

    lemma TooFewToCopy(m: Vm, d: nat, hi: nat, i: nat)
      requires i < hi && AllPresent(m.tabs, d, i) && Flat(m.tabs, d, i).Present? && |m.free| < CopyCost(i + 1)
      ensures |m.free| < CopyCost(hi) && !Missing(m.tabs, |m.free|, d, hi)
    {
      hide Flat, CopyCost;
      CopyCostGrows(i + 1, hi);
      forall p: nat
        ensures !MissingAt(m.tabs, |m.free|, d, hi, p)
      {
        if p > i {
          CopyCostGrows(i + 1, p);
        }
      }
    }

    lemma CopySpace(m: Vm, bytes: Pages, m': Vm, bytes': Pages, c: nat)
      requires NewSpace(m, bytes, m', bytes', c)
      ensures c in m'.spaces
    {
    }

    lemma NothingCopied(m: Vm, bytes: Pages, m': Vm, bytes': Pages, d: nat, c: nat)
      requires KernelSpace(m, bytes, m', bytes', c, kmap) && Built(|m.free|, m', c, KernelSlots(kmap))
      ensures CopiedTo(m, bytes, m', bytes', d, c, 0, kmap) && CopyBuilt(m, m', c, 0) && AllPresent(m.tabs, d, 0)
    {
      assert SlotsOf(0, 0) == {};
    }

    /** One page of copyuvm. */
    method CopyPage(ghost m: Vm, ghost bytes: Pages, d: nat, c: nat, i: nat) returns (r: Mapping)
      requires Valid() && KmapOk() && VmOk(m) && d in m.spaces && i < KPAGE
      requires CopiedTo(m, bytes, St(), data[..], d, c, i, kmap)
      modifies this`free, this`owner, tabs, data
      ensures r == Panicked <==> Flat(m.tabs, d, i) == Absent
      ensures Valid() && NewSpace(m, bytes, St(), data[..], c)
      ensures r == Done ==> CopiedTo(m, bytes, St(), data[..], d, c, i + 1, kmap)
      ensures r == Done ==> Spent(old(St()), St(), c, 1, {i / NPTENTRIES})
      ensures r == NoMemory ==> |old(free)| < 1 + if i / NPTENTRIES in TableSlots(old(tabs[..]), c) then 0 else 1
    {
      hide VmOk, Flat, KernelMap, CopiedTo, NewSpace, KmapOk, Copied, Grew, TableSlots;
      ghost var m1, bytes1 := St(), data[..];
      SameSource(m, bytes, m1, bytes1, d, c, i);
      SpaceFacts(m1, d, i);
      SpaceFacts(m1, c, i);
      var pte := Walkpgdir(d, i, false);
      if pte.None? {
        return Panicked;
      }
      EntryOf(m1, d, i, pte.value);
      var entry := tabs[pte.value][i % NPTENTRIES];
      if entry == Absent {
        return Panicked;
      }
      SourcePage(m, bytes, m1, bytes1, d, c, i);
      r := CopyFrame(m, bytes, m1, bytes1, d, c, i, entry);
    }

    /** A present page gets a frame of its own in the copy. */
    method CopyFrame(ghost m: Vm, ghost bytes: Pages, ghost m1: Vm, ghost bytes1: Pages, ghost d: nat, c: nat, i: nat,
                     entry: Pte)
      returns (r: Mapping)
      requires Valid() && KmapOk() && VmOk(m) && d in m.spaces && i < KPAGE
      requires m1 == St() && bytes1 == data[..] && entry == Flat(m.tabs, d, i) && entry.Present?
      requires CopiedTo(m, bytes, m1, bytes1, d, c, i, kmap) && NewSpace(m, bytes, m1, bytes1, c)
      requires d in m1.spaces && c in m1.spaces && Flat(m1.tabs, c, i) == Absent
      requires entry.frame < |m.owner| == |m1.owner| == |bytes| == |bytes1| == tabs.Length == data.Length
      requires m.owner[entry.frame] != Free && m1.owner[entry.frame] == m.owner[entry.frame]
      requires bytes1[entry.frame] == bytes[entry.frame]
      modifies this`free, this`owner, tabs, data
      ensures r != Panicked && Valid() && NewSpace(m, bytes, St(), data[..], c)
      ensures r == Done ==> CopiedTo(m, bytes, St(), data[..], d, c, i + 1, kmap)
      ensures r == Done ==> Spent(old(St()), St(), c, 1, {i / NPTENTRIES})
      ensures r == NoMemory ==> |old(free)| < 1 + if i / NPTENTRIES in TableSlots(old(tabs[..]), c) then 0 else 1
    {
      hide VmOk, Flat, KernelMap, CopiedTo, NewSpace, KmapOk, Copied, Grew, TableSlots;
      SpaceFacts(m1, c, i);
      var mem := Kalloc();
      if mem.None? {
        return NoMemory;
      }
      data[mem.value] := data[entry.frame];
      ghost var m2, bytes2 := St(), data[..];
      r := MapPage(c, i, mem.value, entry.flags);
      SpaceFacts(St(), c, i);
      if r != Done {
        Kfree(mem.value);
        FrameGivenBack(m, bytes, m1, bytes1, St(), data[..], d, c, i, mem.value);
      } else {
        CopiedMore(m, bytes, m1, bytes1, m2, bytes2, St(), data[..], d, c, i, mem.value, entry);
      }
    }

    lemma SameSource(m: Vm, bytes: Pages, m1: Vm, bytes1: Pages, d: nat, c: nat, i: nat)
      requires VmOk(m) && d in m.spaces && CopiedTo(m, bytes, m1, bytes1, d, c, i, kmap)
      ensures NewSpace(m, bytes, m1, bytes1, c) && d in m1.spaces && c in m1.spaces
      ensures Flat(m1.tabs, d, i) == Flat(m.tabs, d, i)
    {
      hide VmOk, Flat, Copied;
    }

    /** Page i of d has not changed since copyuvm began, and is not mapped in the copy yet. */
    lemma SourcePage(m: Vm, bytes: Pages, m1: Vm, bytes1: Pages, d: nat, c: nat, i: nat)
      requires VmOk(m) && KmapOk() && d in m.spaces && i < KPAGE && Flat(m.tabs, d, i).Present?
               && CopiedTo(m, bytes, m1, bytes1, d, c, i, kmap)
      ensures NewSpace(m, bytes, m1, bytes1, c) && d in m1.spaces && c in m1.spaces && d != c
      ensures Flat(m1.tabs, c, i) == Absent && Flat(m1.tabs, d, i) == Flat(m.tabs, d, i)
      ensures var f := Flat(m.tabs, d, i).frame;
              && f < |m.owner| == |m1.owner| == |bytes| == |bytes1|
              && m.owner[f] != Free && m1.owner[f] == m.owner[f] && bytes1[f] == bytes[f]
    {
      assert PageOk(m, d, i);
      KernelMapBelow(|kmap|, i);
      assert kmap[..|kmap|] == kmap;
      var f := Flat(m.tabs, d, i).frame;
      assert FrameGrew(m.owner[f], m1.owner[f], bytes[f], bytes1[f], f, c);
    }

    lemma FrameGivenBack(m: Vm, bytes: Pages, m1: Vm, bytes1: Pages, m2: Vm, bytes2: Pages,
                    d: nat, c: nat, i: nat, f: nat)
      requires NewSpace(m, bytes, m1, bytes1, c) && f < |m1.owner| == |m2.owner| == |bytes1| == |bytes2|
               && m1.owner[f] == Free
      requires m2.spaces == m1.spaces && m2.owner == m1.owner
      requires forall g: nat :: g < |m1.owner| && g != f ==> bytes2[g] == bytes1[g]
      requires forall e: nat, vp: nat :: e in m1.spaces ==> Flat(m2.tabs, e, vp) == Flat(m1.tabs, e, vp)
      ensures NewSpace(m, bytes, m2, bytes2, c)
    {
      forall g: nat | g < |m.owner|
        ensures FrameGrew(m.owner[g], m2.owner[g], bytes[g], bytes2[g], g, c)
      {
        assert FrameGrew(m.owner[g], m1.owner[g], bytes[g], bytes1[g], g, c);
      }
    }

    lemma CopiedMore(m: Vm, bytes: Pages, m1: Vm, bytes1: Pages, m2: Vm, bytes2: Pages,
                     m3: Vm, bytes3: Pages, d: nat, c: nat, i: nat, f: nat, entry: Pte)
      requires CopiedTo(m, bytes, m1, bytes1, d, c, i, kmap)
      requires f < |m1.owner| && m1.owner[f] == Free && m2.owner == m1.owner[f := Held] && |bytes1| == |m1.owner|
      requires Flat(m.tabs, d, i) == entry && entry.Present? && entry.frame < |m.owner|
               && bytes1[entry.frame] == bytes[entry.frame]
      requires bytes2 == bytes1[f := bytes1[entry.frame]] && m2.tabs == m1.tabs
      requires m3.spaces == m1.spaces && Grew(m2, bytes2, m3, bytes3, c, f) && m3.owner[f] == Data(c, i)
               && bytes3[f] == bytes2[f]
      requires Flat(m3.tabs, c, i) == Present(f, entry.flags)
      requires forall e: nat, vp: nat :: e in m1.spaces && (e, vp) != (c, i) ==>
                Flat(m3.tabs, e, vp) == Flat(m1.tabs, e, vp)
      ensures CopiedTo(m, bytes, m3, bytes3, d, c, i + 1, kmap) && NewSpace(m, bytes, m3, bytes3, c)
    {
      hide Flat, KernelMap;
      forall g: nat | g < |m.owner|
        ensures FrameGrew(m.owner[g], m3.owner[g], bytes[g], bytes3[g], g, c)
      {
        assert FrameGrew(m.owner[g], m1.owner[g], bytes[g], bytes1[g], g, c);
        assert g != f ==> FrameGrew(m2.owner[g], m3.owner[g], bytes2[g], bytes3[g], g, c);
      }
      forall vp: nat | vp < i + 1
        ensures Copied(m, bytes, m3, bytes3, d, c, vp)
      {
        if vp < i {
          assert Copied(m, bytes, m1, bytes1, d, c, vp);
          var g := Flat(m1.tabs, c, vp).frame;
          assert g != f && FrameGrew(m2.owner[g], m3.owner[g], bytes2[g], bytes3[g], g, c);
        }
      }
    }
  }
}
