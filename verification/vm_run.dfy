/** Whole runs over address spaces: no frame is lost or used twice, however they are made, grown, shrunk, copied and
    dropped. */
module AddressSpaceRun {
  import opened Common
  import opened VmState
  import opened AddressSpaces

  datatype Step =
    | Make
    | Grow(d: nat, oldsz: nat, newsz: nat)
    | Shrink(d: nat, oldsz: nat, newsz: nat)
    | Copy(d: nat, sz: nat)
    | Drop(d: nat)

  /** The frames outside all address spaces, on the free list or held for other purposes, and nothing else in transit.
      */
  ghost predicate Conserved(owner: seq<Owner>, owner': seq<Owner>) {
    |owner'| == |owner| && forall f :: 0 <= f < |owner| ==> (owner'[f] == Held <==> owner[f] == Held)
  }

  /** The calls that panic. */
  predicate Panics(ts: seq<Table>, frames: nat, m: Memory, step: Step) {
    match step
    case Grow(d, oldsz, newsz) =>
      oldsz <= newsz < KERNBASE && Memory.Remaps(ts, frames, d, PgRoundUp(oldsz), PgRoundUp(newsz))
    case Copy(d, sz) => m.Missing(ts, frames, d, PgRoundUp(sz))
    case _ => false
  }

  /** Any run of calls that do not panic: ownership stays exact, and every frame that was free or in an address space
      still is one or the other. */
  method Run(m: Memory, steps: seq<Step>) returns (live: set<nat>)
    requires m.Valid() && m.KmapOk() && m.spaces == {}
    modifies m, m.tabs, m.data
    ensures m.Valid() && m.spaces == live && Conserved(old(m.owner), m.owner)
    ensures forall f: nat :: f < |m.owner| ==>
              old(m.owner)[f] == Held || m.owner[f] == Free || exists d :: d in live && BelongsTo(m.owner[f], f, d)
    ensures live == {} ==> forall f: nat :: f < |m.owner| && old(m.owner)[f] != Held ==>
              m.owner[f] == Free && f in m.free
  {
    hide m.Valid, m.KmapOk, Flat, Panics;
    live := {};
    for s := 0 to |steps|
      invariant m.Valid() && m.KmapOk() && m.spaces == live && Conserved(old(m.owner), m.owner)
    {
      if !Panics(m.tabs[..], |m.free|, m, steps[s]) {
        live := OneStep(m, live, steps[s]);
      }
    }
    EveryFrame(m);
  }

  /** Which spaces there are after a step: a new one at most, and one less after freevm. */
  ghost predicate Lives(live: set<nat>, live': set<nat>, step: Step) {
    match step
    case Make => live' == live || exists d :: d !in live && live' == live + {d}
    case Copy(_, _) => live' == live || exists d :: d !in live && live' == live + {d}
    case Drop(d) => live' == live - {d}
    case _ => live' == live
  }

  method OneStep(m: Memory, live: set<nat>, step: Step) returns (live': set<nat>)
    requires m.Valid() && m.KmapOk() && m.spaces == live && !Panics(m.tabs[..], |m.free|, m, step)
    modifies m, m.tabs, m.data
    ensures m.Valid() && m.KmapOk() && m.spaces == live' && Conserved(old(m.owner), m.owner)
    ensures Lives(live, live', step)
  {
    hide m.Valid, m.KmapOk, Flat, Panics;
    Lengths(m);
    live' := live;
    match step
    case Make =>
      var d := m.Setupkvm();
      if d.Some? {
        live' := live + {d.value};
      }
    case Grow(d, oldsz, newsz) =>
      if d in live {
        GrowStep(m, d, oldsz, newsz);
      }
    case Shrink(d, oldsz, newsz) =>
      if d in live && oldsz <= KERNBASE {
        var _ := m.Deallocuvm(d, oldsz, newsz);
      }
    case Copy(d, sz) =>
      if d in live && sz <= KERNBASE {
        live' := CopyStep(m, live, d, sz);
      }
    case Drop(d) =>
      if d in live {
        m.Freevm(d);
        live' := live - {d};
      }
  }

  method GrowStep(m: Memory, d: nat, oldsz: nat, newsz: nat)
    requires m.Valid() && m.KmapOk() && d in m.spaces && !Panics(m.tabs[..], |m.free|, m, Grow(d, oldsz, newsz))
    modifies m`free, m`owner, m.tabs, m.data
    ensures m.Valid() && Conserved(old(m.owner), m.owner)
  {
    hide m.Valid, m.KmapOk, Flat, Memory.Remaps, Needed, m.RangeMapped, m.RangeGone, m.OnlyTables, NonePresent;
    Lengths(m);
    ghost var was, bytes := m.St(), m.data[..];
    ghost var ok;
    var r;
    r, ok := m.Allocuvm(d, oldsz, newsz);
    if ok {
      MappedConserved(m, was, bytes, m.St(), m.data[..], d, PgRoundUp(oldsz), PgRoundUp(newsz));
    } else if oldsz <= newsz < KERNBASE {
      GoneConserved(m, was, bytes, m.St(), m.data[..], d, PgRoundUp(oldsz), PgRoundUp(newsz));
    }
  }

  lemma MappedConserved(m: Memory, was: Vm, bytes: Pages, now: Vm, bytes': Pages, d: nat, lo: nat, hi: nat)
    requires m.RangeMapped(was, bytes, now, bytes', d, lo, hi)
    ensures Conserved(was.owner, now.owner)
  {
    hide Flat;
  }

  lemma GoneConserved(m: Memory, was: Vm, bytes: Pages, now: Vm, bytes': Pages, d: nat, lo: nat, hi: nat)
    requires m.RangeGone(was, bytes, now, bytes', d, lo, hi)
    ensures Conserved(was.owner, now.owner)
  {
    hide Flat;
  }

  method CopyStep(m: Memory, live: set<nat>, d: nat, sz: nat) returns (live': set<nat>)
    requires m.Valid() && m.KmapOk() && m.spaces == live && d in live && sz <= KERNBASE
    requires !Panics(m.tabs[..], |m.free|, m, Copy(d, sz))
    modifies m`free, m`owner, m`spaces, m.tabs, m.data
    ensures m.Valid() && m.spaces == live' && Conserved(old(m.owner), m.owner)
    ensures Lives(live, live', Copy(d, sz))
  {
    hide m.Valid, m.KmapOk, Flat, m.Missing, m.CopyCost, AllPresent;
    Lengths(m);
    var c := m.Copyuvm(d, sz);
    live' := if c.CopiedAs? then live + {c.c} else live;
  }

  lemma Lengths(m: Memory)
    requires m.Valid()
    ensures |m.owner| == m.tabs.Length == m.data.Length
  {
  }

  lemma EveryFrame(m: Memory)
    requires m.Valid()
    ensures |m.owner| == m.tabs.Length
    ensures forall f: nat :: f < |m.owner| ==>
              m.owner[f] == Held || m.owner[f] == Free || exists d :: d in m.spaces && BelongsTo(m.owner[f], f, d)
    ensures forall f: nat :: f < |m.owner| && m.owner[f] == Free ==> f in m.free
  {
    forall f: nat | f < |m.owner|
      ensures m.owner[f] == Held || m.owner[f] == Free || exists d :: d in m.spaces && BelongsTo(m.owner[f], f, d)
      ensures m.owner[f] == Free ==> f in m.free
    {
      assert FrameOk(m.St(), f);
      assert m.owner[f] == Dir ==> BelongsTo(m.owner[f], f, f);
      assert m.owner[f].Tab? || m.owner[f].Data? ==> BelongsTo(m.owner[f], f, m.owner[f].d);
    }
  }
}
