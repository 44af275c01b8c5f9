/** Page tables and frame ownership (vm.c, kalloc.c) as values.  Addresses are page numbers: virtual page vp is entry
    vp % NPTENTRIES of the table in directory entry vp / NPTENTRIES; physical page numbers are frames. */
module VmState {

  const PGSIZE: nat := 4096
  const NPDENTRIES: nat := 1024
  const PTE_W := 2
  const PTE_U := 4
  const NPTENTRIES: nat := 1024
  const PAGES: nat := NPDENTRIES * NPTENTRIES   // of the whole virtual address space
  const KPAGE: nat := 0x8_0000                  // KERNBASE / PGSIZE: user pages are below

  /** A directory or table entry. */
  datatype Pte = Absent | Present(frame: nat, flags: nat)

  type Table = t: seq<Pte> | |t| == NPTENTRIES witness Zeroed()

  function Zeroed(): seq<Pte> {
    seq(NPTENTRIES, _ => Absent)
  }

  /** What a frame is used for: Held is allocated but not installed in an address space. */
  datatype Owner = Free | Held | Dir | Tab(d: nat, i: nat) | Data(d: nat, vp: nat)

  /** spaces are the frames that hold page directories. */
  datatype Vm = Vm(tabs: seq<Table>, free: seq<nat>, owner: seq<Owner>, spaces: set<nat>)

  /** The two-level table as a flat map from pages to entries. */
  function Flat(tabs: seq<Table>, d: nat, vp: nat): Pte {
    if d < |tabs| && vp < PAGES then
      match tabs[d][vp / NPTENTRIES]
      case Absent => Absent
      case Present(t, _) => if t < |tabs| then tabs[t][vp % NPTENTRIES] else Absent
    else Absent
  }

  predicate HasFlag(flags: nat, bit: nat)
    requires bit > 0
  {
    flags / bit % 2 == 1
  }

  /** What the processor grants: a right that both levels have. Bit 2 is to write, bit 4 is to the user. */
  predicate Grants(tabs: seq<Table>, d: nat, vp: nat, bit: nat)
    requires bit > 0
  {
    && d < |tabs| && vp < PAGES && tabs[d][vp / NPTENTRIES].Present? && Flat(tabs, d, vp).Present?
    && HasFlag(tabs[d][vp / NPTENTRIES].flags, bit) && HasFlag(Flat(tabs, d, vp).flags, bit)
  }

  /** Directory entries take no right away, so that the page's entry decides. */
  lemma EntryDecides(m: Vm, d: nat, vp: nat)
    requires VmOk(m) && d in m.spaces && vp < PAGES
    ensures forall bit :: bit == 2 || bit == 4 ==>
              (Grants(m.tabs, d, vp, bit) <==> Flat(m.tabs, d, vp).Present? && HasFlag(Flat(m.tabs, d, vp).flags, bit))
  {
    assert DirOk(m, d) && TabOk(m, d, vp / NPTENTRIES);
  }

  // ---- invariant ---------------------------------------------------------------------------------------

  /** A frame's owner does use it. */
  ghost predicate FrameOk(m: Vm, f: nat) {
    f < |m.owner| == |m.tabs| ==>
      match m.owner[f]
      case Free => f in m.free
      case Held => true
      case Dir => f in m.spaces
      case Tab(d, i) =>
        d in m.spaces && d < |m.tabs| && i < NPDENTRIES && m.tabs[d][i].Present? && m.tabs[d][i].frame == f
      case Data(d, vp) => d in m.spaces && vp < KPAGE && Flat(m.tabs, d, vp).Present? && Flat(m.tabs, d, vp).frame == f
  }

  /** Whatever an address space uses is recorded as its own. */
  ghost predicate DirOk(m: Vm, d: nat) {
    d in m.spaces ==> d < |m.owner| == |m.tabs| && m.owner[d] == Dir
  }

  ghost predicate TabOk(m: Vm, d: nat, i: nat) {
    d in m.spaces && d < |m.tabs| && i < NPDENTRIES && m.tabs[d][i].Present? ==>
      m.tabs[d][i].frame < |m.owner| && m.owner[m.tabs[d][i].frame] == Tab(d, i)
      && m.tabs[d][i].flags == PTE_W + PTE_U
  }

  ghost predicate PageOk(m: Vm, d: nat, vp: nat) {
    d in m.spaces && vp < KPAGE && Flat(m.tabs, d, vp).Present? ==>
      Flat(m.tabs, d, vp).frame < |m.owner| && m.owner[Flat(m.tabs, d, vp).frame] == Data(d, vp)
  }

  ghost predicate FreeOk(m: Vm) {
    && (forall k :: 0 <= k < |m.free| ==> m.free[k] < |m.owner| && m.owner[m.free[k]] == Free)
    && (forall k, l :: 0 <= k < l < |m.free| ==> m.free[k] != m.free[l])
  }

  /** Every frame has exactly one use, and the free list holds the unused ones once each. */
  ghost predicate VmOk(m: Vm) {
    && |m.owner| == |m.tabs| && FreeOk(m)
    && (forall f: nat :: FrameOk(m, f))
    && (forall d: nat :: DirOk(m, d))
    && (forall d: nat, i: nat :: TabOk(m, d, i))
    && (forall d: nat, vp: nat :: PageOk(m, d, vp))
  }

  /** No frame is used twice, within one address space or by two of them. */
  lemma PagesShareNoFrame(m: Vm, d: nat, vp: nat, e: nat, wp: nat)
    requires VmOk(m) && d in m.spaces && e in m.spaces && vp < KPAGE && wp < KPAGE && (d, vp) != (e, wp)
    requires Flat(m.tabs, d, vp).Present? && Flat(m.tabs, e, wp).Present?
    ensures Flat(m.tabs, d, vp).frame != Flat(m.tabs, e, wp).frame
    ensures Flat(m.tabs, d, vp).frame !in m.free && Flat(m.tabs, d, vp).frame !in m.spaces
  {
    assert PageOk(m, d, vp) && PageOk(m, e, wp);
    assert DirOk(m, Flat(m.tabs, d, vp).frame);
  }

  // ---- kalloc and kfree --------------------------------------------------------------------------------

  function Taken(m: Vm): Vm
    requires m.free != [] && m.free[0] < |m.owner|
  {
    m.(free := m.free[1..], owner := m.owner[m.free[0] := Held])
  }

  function Given(m: Vm, f: nat): Vm
    requires f < |m.owner|
  {
    m.(free := [f] + m.free, owner := m.owner[f := Free])
  }

  lemma TakenOk(m: Vm)
    requires VmOk(m) && m.free != []
    ensures m.free[0] < |m.owner| && VmOk(Taken(m))
  {
    var m' := Taken(m);
    var f := m.free[0];
    forall g: nat
      ensures FrameOk(m', g) && DirOk(m', g)
    {
      assert FrameOk(m, g) && DirOk(m, g);
    }
    forall d: nat, i: nat
      ensures TabOk(m', d, i) && PageOk(m', d, i)
    {
      assert TabOk(m, d, i) && PageOk(m, d, i) && DirOk(m, d);
    }
  }

  lemma GivenOk(m: Vm, f: nat)
    requires VmOk(m) && f < |m.owner| && m.owner[f] == Held
    ensures VmOk(Given(m, f))
  {
    var m' := Given(m, f);
    assert f !in m.free;
    forall g: nat
      ensures FrameOk(m', g) && DirOk(m', g)
    {
      assert FrameOk(m, g) && DirOk(m, g);
    }
    forall d: nat, i: nat
      ensures TabOk(m', d, i) && PageOk(m', d, i)
    {
      assert TabOk(m, d, i) && PageOk(m, d, i) && DirOk(m, d);
    }
  }

  // ---- changing a frame that is not in use -------------------------------------------------------------

  /** Clearing a frame that is in transit changes no address space. */
  lemma HeldCleared(m: Vm, f: nat, t: Table)
    requires VmOk(m) && f < |m.owner| && (m.owner[f] == Held || m.owner[f] == Free)
    ensures VmOk(m.(tabs := m.tabs[f := t]))
    ensures forall d: nat, vp: nat :: d in m.spaces ==> Flat(m.tabs[f := t], d, vp) == Flat(m.tabs, d, vp)
  {
    var m' := m.(tabs := m.tabs[f := t]);
    forall d: nat, vp: nat | d in m.spaces
      ensures Flat(m'.tabs, d, vp) == Flat(m.tabs, d, vp)
    {
      assert DirOk(m, d) && TabOk(m, d, vp / NPTENTRIES);
    }
    forall g: nat
      ensures FrameOk(m', g) && DirOk(m', g)
    {
      assert FrameOk(m, g) && DirOk(m, g);
      if g < |m.owner| && m.owner[g].Tab? {
        assert DirOk(m, m.owner[g].d);
      }
    }
    forall d: nat, i: nat
      ensures TabOk(m', d, i) && PageOk(m', d, i)
    {
      assert TabOk(m, d, i) && PageOk(m, d, i) && DirOk(m, d);
    }
  }

  /** A cleared frame in transit becomes a new, empty address space. */
  lemma SpaceAdded(m: Vm, d: nat)
    requires VmOk(m) && d < |m.owner| && m.owner[d] == Held && m.tabs[d] == Zeroed()
    ensures d !in m.spaces && VmOk(m.(owner := m.owner[d := Dir], spaces := m.spaces + {d}))
    ensures forall vp: nat :: Flat(m.tabs, d, vp) == Absent
  {
    var m' := m.(owner := m.owner[d := Dir], spaces := m.spaces + {d});
    assert DirOk(m, d);
    forall g: nat
      ensures FrameOk(m', g) && DirOk(m', g)
    {
      assert FrameOk(m, g) && DirOk(m, g);
    }
    forall e: nat, i: nat
      ensures TabOk(m', e, i) && PageOk(m', e, i)
    {
      assert TabOk(m, e, i) && PageOk(m, e, i) && DirOk(m, e);
    }
  }

  // ---- page tables and pages ---------------------------------------------------------------------------

  /** A cleared frame in transit becomes the table of a directory entry: the flat map is the same. */
  function WithTable(m: Vm, d: nat, i: nat, t: nat, flags: nat): Vm
    requires d < |m.tabs| && i < NPDENTRIES && t < |m.owner|
  {
    m.(tabs := m.tabs[d := m.tabs[d][i := Present(t, flags)]], owner := m.owner[t := Tab(d, i)])
  }

  lemma TableAdded(m: Vm, d: nat, i: nat, t: nat, flags: nat)
    requires VmOk(m) && d in m.spaces && d < |m.tabs| && i < NPDENTRIES && m.tabs[d][i] == Absent
    requires t < |m.owner| && m.owner[t] == Held && m.tabs[t] == Zeroed() && flags == PTE_W + PTE_U
    ensures VmOk(WithTable(m, d, i, t, flags))
    ensures forall e: nat, vp: nat :: e in m.spaces ==>
              Flat(WithTable(m, d, i, t, flags).tabs, e, vp) == Flat(m.tabs, e, vp)
  {
    var m' := WithTable(m, d, i, t, flags);
    assert DirOk(m, d);
    forall e: nat, vp: nat | e in m.spaces
      ensures Flat(m'.tabs, e, vp) == Flat(m.tabs, e, vp)
    {
      assert DirOk(m, e) && TabOk(m, e, vp / NPTENTRIES);
    }
    forall g: nat
      ensures FrameOk(m', g) && DirOk(m', g)
    {
      assert FrameOk(m, g) && DirOk(m, g);
    }
    forall e: nat, j: nat
      ensures TabOk(m', e, j) && PageOk(m', e, j)
    {
      assert TabOk(m, e, j) && PageOk(m, e, j) && DirOk(m, e);
    }
  }

  /** Writing the entry of page vp, in the table where it lies, changes the flat map there and nowhere else. */
  function WithEntry(m: Vm, t: nat, vp: nat, pte: Pte): seq<Table>
    requires t < |m.tabs|
  {
    m.tabs[t := m.tabs[t][vp % NPTENTRIES := pte]]
  }

  ghost predicate TableOf(m: Vm, d: nat, vp: nat, t: nat) {
    && d in m.spaces && d < |m.tabs| && vp < PAGES
    && m.tabs[d][vp / NPTENTRIES].Present? && m.tabs[d][vp / NPTENTRIES].frame == t && t < |m.tabs|
  }

  lemma EntryWritten(m: Vm, d: nat, vp: nat, t: nat, pte: Pte)
    requires VmOk(m) && TableOf(m, d, vp, t)
    ensures Flat(WithEntry(m, t, vp, pte), d, vp) == pte
    ensures forall e: nat, wp: nat :: e in m.spaces && (e, wp) != (d, vp) ==>
              Flat(WithEntry(m, t, vp, pte), e, wp) == Flat(m.tabs, e, wp)
    ensures forall e: nat :: e in m.spaces && e < |m.tabs| ==> WithEntry(m, t, vp, pte)[e] == m.tabs[e]
  {
    assert DirOk(m, d) && TabOk(m, d, vp / NPTENTRIES);
    forall e: nat | e in m.spaces
      ensures e != t
    {
      assert DirOk(m, e);
    }
    forall e: nat, wp: nat | e in m.spaces && (e, wp) != (d, vp)
      ensures Flat(WithEntry(m, t, vp, pte), e, wp) == Flat(m.tabs, e, wp)
    {
      assert DirOk(m, e) && TabOk(m, e, wp / NPTENTRIES);
      if wp < PAGES && wp / NPTENTRIES == vp / NPTENTRIES && wp % NPTENTRIES == vp % NPTENTRIES {
        assert wp == vp;
      }
    }
  }

  /** Mapping user page vp to a frame in transit, or a kernel page to any frame. */
  lemma PageMapped(m: Vm, d: nat, vp: nat, t: nat, f: nat, flags: nat)
    requires VmOk(m) && TableOf(m, d, vp, t) && Flat(m.tabs, d, vp) == Absent
    requires vp < KPAGE ==> f < |m.owner| && m.owner[f] == Held
    ensures VmOk(m.(tabs := WithEntry(m, t, vp, Present(f, flags)),
                    owner := if vp < KPAGE then m.owner[f := Data(d, vp)] else m.owner))
  {
    var m' := m.(tabs := WithEntry(m, t, vp, Present(f, flags)),
                 owner := if vp < KPAGE then m.owner[f := Data(d, vp)] else m.owner);
    EntryWritten(m, d, vp, t, Present(f, flags));
    hide Flat, WithEntry;
    forall g: nat
      ensures FrameOk(m', g) && DirOk(m', g)
    {
      assert FrameOk(m, g) && DirOk(m, g);
    }
    forall e: nat, j: nat
      ensures TabOk(m', e, j) && PageOk(m', e, j)
    {
      assert TabOk(m, e, j) && PageOk(m, e, j) && DirOk(m, e);
    }
  }

  /** Unmapping user page vp puts its frame in transit. */
  lemma PageUnmapped(m: Vm, d: nat, vp: nat, t: nat)
    requires VmOk(m) && TableOf(m, d, vp, t) && vp < KPAGE && Flat(m.tabs, d, vp).Present?
    ensures var f := Flat(m.tabs, d, vp).frame;
            && f < |m.owner| && m.owner[f] == Data(d, vp)
            && VmOk(m.(tabs := WithEntry(m, t, vp, Absent), owner := m.owner[f := Held]))
  {
    var f := Flat(m.tabs, d, vp).frame;
    assert PageOk(m, d, vp);
    var m' := m.(tabs := WithEntry(m, t, vp, Absent), owner := m.owner[f := Held]);
    EntryWritten(m, d, vp, t, Absent);
    hide Flat, WithEntry;
    forall g: nat
      ensures FrameOk(m', g) && DirOk(m', g)
    {
      assert FrameOk(m, g) && DirOk(m, g);
    }
    forall e: nat, j: nat
      ensures TabOk(m', e, j) && PageOk(m', e, j)
    {
      assert TabOk(m, e, j) && PageOk(m, e, j) && DirOk(m, e);
    }
  }

  // ---- giving up an address space ----------------------------------------------------------------------

  /** Frames that hold directory d or one of its tables. */
  predicate Structure(o: Owner, f: nat, d: nat) {
    (o == Dir && f == d) || (o.Tab? && o.d == d)
  }

  function Released(owner: seq<Owner>, d: nat): (r: seq<Owner>)
    ensures |r| == |owner|
  {
    seq(|owner|, f requires 0 <= f < |owner| => if Structure(owner[f], f, d) then Held else owner[f])
  }

  /** A space without user pages can be dropped: its directory and tables are in transit then. */
  lemma SpaceDropped(m: Vm, d: nat)
    requires VmOk(m) && d in m.spaces && forall vp: nat :: vp < KPAGE ==> Flat(m.tabs, d, vp) == Absent
    ensures VmOk(m.(owner := Released(m.owner, d), spaces := m.spaces - {d}))
  {
    var m' := m.(owner := Released(m.owner, d), spaces := m.spaces - {d});
    hide Flat;
    forall g: nat
      ensures FrameOk(m', g) && DirOk(m', g)
    {
      assert FrameOk(m, g) && DirOk(m, g);
    }
    forall e: nat, j: nat
      ensures TabOk(m', e, j) && PageOk(m', e, j)
    {
      assert TabOk(m, e, j) && PageOk(m, e, j) && DirOk(m, e);
    }
  }
}
