/** Whole runs of the K&R allocator: whatever a program allocates and frees, its blocks never overlap. */
module UmallocRun {
  import opened Common
  import opened FreeLists
  import opened Umalloc

  /** A request, or the release of one of the blocks in hand. */
  datatype Step = Get(nbytes: Uint) | Put(k: nat)

  /** A pointer malloc returned and the bytes asked for. */
  datatype Block = Block(p: nat, nbytes: Uint)

  /** The units a block occupies, its header first. */
  function Extent(b: Block): Blk
    requires b.p > 0
  {
    Blk(b.p - 1, Units(b.nbytes))
  }

  ghost predicate InHand(live: seq<Block>, a: nat) {
    exists j :: 0 <= j < |live| && live[j].p == a + 1
  }

  ghost predicate Distinct(live: seq<Block>, alloc: map<nat, nat>) {
    && (forall j :: 0 <= j < |live| ==> live[j].p > 0 && live[j].p - 1 in alloc)
    && (forall j :: 0 <= j < |live| ==> alloc[live[j].p - 1] == Units(live[j].nbytes))
    && (forall j, k :: 0 <= j < k < |live| ==> live[j].p != live[k].p)
  }

  /** The program holds distinct blocks, and they are exactly what is handed out. */
  ghost predicate Holding(live: seq<Block>, alloc: map<nat, nat>) {
    Distinct(live, alloc) && forall a :: a in alloc ==> InHand(live, a)
  }

  /** Room for header and request. */
  predicate Roomy(b: Block) {
    Units(b.nbytes) * HEADER >= b.nbytes + HEADER
  }

  ghost predicate Disjoint(live: seq<Block>)
    requires forall j :: 0 <= j < |live| ==> live[j].p > 0
  {
    forall j, k :: 0 <= j < k < |live| ==> Apart(Extent(live[j]), Extent(live[k]))
  }

  /** The sizes of the blocks in hand after these steps, in the order they were obtained; granted tells which requests
      got a block. */
  function SizesInHand(steps: seq<Step>, granted: seq<bool>): seq<Uint>
    requires |granted| == |steps|
  {
    if steps == [] then []
    else
      var n := |steps| - 1;
      var before := SizesInHand(steps[..n], granted[..n]);
      match steps[n]
      case Get(nbytes) => if granted[n] then before + [nbytes] else before
      case Put(k) => if k < |before| then before[..k] + before[k + 1..] else before
  }

  /** How many requests got no block. */
  function Denied(steps: seq<Step>, granted: seq<bool>): nat
    requires |granted| == |steps|
  {
    if steps == [] then 0
    else
      var n := |steps| - 1;
      Denied(steps[..n], granted[..n]) + if steps[n].Get? && !granted[n] then 1 else 0
  }

  predicate Sized(live: seq<Block>, sizes: seq<Uint>) {
    |live| == |sizes| && forall j :: 0 <= j < |live| ==> live[j].nbytes == sizes[j]
  }

  lemma OneMoreStep(steps: seq<Step>, granted: seq<bool>, done: nat, g: bool)
    requires done < |steps| && |granted| == done
    ensures var more := granted + [g];
            var before := SizesInHand(steps[..done], granted);
            && SizesInHand(steps[..done + 1], more)
               == (match steps[done]
                   case Get(nbytes) => if g then before + [nbytes] else before
                   case Put(k) => if k < |before| then before[..k] + before[k + 1..] else before)
            && Denied(steps[..done + 1], more)
               == Denied(steps[..done], granted) + if steps[done].Get? && !g then 1 else 0
  {
    assert steps[..done + 1][..done] == steps[..done] && (granted + [g])[..done] == granted;
  }

  /** Blocks in hand after any run: those that were granted and not released, pairwise disjoint, apart from everything
      on the free list, and each large enough unless its request wrapped. The run is over early exactly at a request
      whose size is no positive int. */
  method Run(a: Allocator, steps: seq<Step>) returns (live: seq<Block>, done: nat, ghost granted: seq<bool>)
    requires a.Valid() && a.alloc == map[]
    modifies a, a.ptr, a.size
    ensures done <= |steps| && forall k :: 0 <= k < done && steps[k].Get? ==> !TooLarge(steps[k].nbytes)
    ensures done < |steps| ==> steps[done].Get? && TooLarge(steps[done].nbytes)
    ensures |granted| == done && Sized(live, SizesInHand(steps[..done], granted))
    ensures done == |steps| ==> a.refusals == old(a.refusals) + Denied(steps, granted)
    ensures Holding(live, a.alloc) && Disjoint(live)
    ensures forall j :: 0 <= j < |live| ==> (Roomy(live[j]) <==> live[j].nbytes + HEADER - 1 < UINT)
    ensures done == |steps| ==> a.Valid()
    ensures done == |steps| && a.freep != 0 ==>
              forall j, i :: 0 <= j < |live| && 0 <= i < |a.F| ==> Apart(Extent(live[j]), a.F[i])
  {
    hide a.Valid, Units, TooLarge, Holding, Disjoint, Roomy, Sized, SizesInHand, Denied;
    live, done, granted := [], 0, [];
    NothingHeld();
    assert steps[..0] == [] && Denied([], []) == 0 && Sized([], SizesInHand([], [])) by { NothingDone(); }
    while done < |steps|
      invariant done <= |steps| && forall k :: 0 <= k < done && steps[k].Get? ==> !TooLarge(steps[k].nbytes)
      invariant a.Valid() && Holding(live, a.alloc)
      invariant |granted| == done && Sized(live, SizesInHand(steps[..done], granted))
      invariant a.refusals == old(a.refusals) + Denied(steps[..done], granted)
    {
      BlocksApart(a, live);
      if steps[done].Get? && TooLarge(steps[done].nbytes) {
        BlocksRoomy(live);
        var _ := a.Malloc(steps[done].nbytes);
        return;
      }
      ghost var before, sizes := live, SizesInHand(steps[..done], granted);
      ghost var g;
      live, g := TakeStep(a, live, steps[done]);
      SizedAfter(before, live, sizes, steps[done], g);
      OneMoreStep(steps, granted, done, g);
      granted := granted + [g];
      done := done + 1;
    }
    assert steps[..|steps|] == steps;
    BlocksApart(a, live);
    BlocksRoomy(live);
  }

  /** The blocks in hand after a step. */
  ghost predicate Taken(live: seq<Block>, live': seq<Block>, step: Step, g: bool) {
    match step
    case Get(nbytes) => if g then |live'| == |live| + 1 && live' == live + [Block(live'[|live|].p, nbytes)]
                        else live' == live
    case Put(k) => live' == if k < |live| then live[..k] + live[k + 1..] else live
  }

  lemma SizedAfter(live: seq<Block>, live': seq<Block>, sizes: seq<Uint>, step: Step, g: bool)
    requires Sized(live, sizes) && Taken(live, live', step, g)
    ensures Sized(live', match step
                         case Get(nbytes) => if g then sizes + [nbytes] else sizes
                         case Put(k) => if k < |sizes| then sizes[..k] + sizes[k + 1..] else sizes)
  {
  }

  lemma NothingDone()
    ensures Denied([], []) == 0 && Sized([], SizesInHand([], []))
  {
  }

  method TakeStep(a: Allocator, live: seq<Block>, step: Step) returns (live': seq<Block>, ghost g: bool)
    requires a.Valid() && Holding(live, a.alloc) && (step.Get? ==> !TooLarge(step.nbytes))
    modifies a, a.ptr, a.size
    ensures a.Valid() && Holding(live', a.alloc) && Taken(live, live', step, g)
    ensures a.refusals == old(a.refusals) + if step.Get? && !g then 1 else 0
  {
    hide a.Valid, Units, TooLarge, Holding;
    live', g := live, true;
    match step
    case Get(nbytes) =>
      ghost var alloc := a.alloc;
      var r := a.Malloc(nbytes);
      if r.Pointer? {
        HoldingMore(live, alloc, a.alloc, Block(r.p, nbytes));
        live' := live + [Block(r.p, nbytes)];
      }
      g := r.Pointer?;
    case Put(k) =>
      if k < |live| {
        HeldBlock(live, a.alloc, k);
        HoldingLess(live, a.alloc, k);
        a.Free(live[k].p);
        live' := live[..k] + live[k + 1..];
      }
  }

  lemma NothingHeld()
    ensures Holding([], map[])
  {
  }

  lemma HeldBlock(live: seq<Block>, alloc: map<nat, nat>, k: nat)
    requires Holding(live, alloc) && k < |live|
    ensures live[k].p > 0 && live[k].p - 1 in alloc
  {
  }

  lemma HoldingMore(live: seq<Block>, alloc: map<nat, nat>, alloc': map<nat, nat>, b: Block)
    requires Holding(live, alloc) && b.p > 0 && b.p - 1 !in alloc && alloc' == alloc[b.p - 1 := Units(b.nbytes)]
    ensures Holding(live + [b], alloc')
  {
    hide Units, Distinct;
    assert Distinct(live + [b], alloc') by { DistinctMore(live, alloc, b); }
    forall a | a in alloc'
      ensures InHand(live + [b], a)
    {
      if a == b.p - 1 {
        assert (live + [b])[|live|].p == a + 1;
      } else {
        var j :| 0 <= j < |live| && live[j].p == a + 1;
        assert (live + [b])[j].p == a + 1;
      }
    }
  }

  lemma DistinctMore(live: seq<Block>, alloc: map<nat, nat>, b: Block)
    requires Distinct(live, alloc) && b.p > 0 && b.p - 1 !in alloc
    ensures Distinct(live + [b], alloc[b.p - 1 := Units(b.nbytes)])
  {
    hide Units;
  }

  lemma HoldingLess(live: seq<Block>, alloc: map<nat, nat>, k: nat)
    requires Holding(live, alloc) && k < |live|
    ensures live[k].p > 0 && Holding(live[..k] + live[k + 1..], alloc - {live[k].p - 1})
  {
    hide Units, Distinct;
    var rest := live[..k] + live[k + 1..];
    assert live[k].p > 0 && Distinct(rest, alloc - {live[k].p - 1}) by { DistinctLess(live, alloc, k); }
    forall a | a in alloc && a != live[k].p - 1
      ensures InHand(rest, a)
    {
      var j :| 0 <= j < |live| && live[j].p == a + 1;
      assert rest[if j < k then j else j - 1] == live[j];
    }
  }

  lemma DistinctLess(live: seq<Block>, alloc: map<nat, nat>, k: nat)
    requires Distinct(live, alloc) && k < |live|
    ensures live[k].p > 0 && Distinct(live[..k] + live[k + 1..], alloc - {live[k].p - 1})
  {
    hide Units;
    var rest := live[..k] + live[k + 1..];
    forall j | 0 <= j < |rest|
      ensures rest[j] == live[if j < k then j else j + 1]
    {
    }
  }

  lemma BlocksApart(a: Allocator, live: seq<Block>)
    requires a.Valid() && Holding(live, a.alloc)
    ensures (forall j :: 0 <= j < |live| ==> live[j].p > 0) && Disjoint(live)
    ensures forall j, i :: 0 <= j < |live| && 0 <= i < |a.F| && a.freep != 0 ==> Apart(Extent(live[j]), a.F[i])
  {
    hide a.Valid, Distinct, Disjoint, Units;
    DistinctApart(a, live);
  }

  lemma DistinctApart(a: Allocator, live: seq<Block>)
    requires a.Valid() && Distinct(live, a.alloc)
    ensures (forall j :: 0 <= j < |live| ==> live[j].p > 0) && Disjoint(live)
    ensures forall j, i :: 0 <= j < |live| && 0 <= i < |a.F| && a.freep != 0 ==> Apart(Extent(live[j]), a.F[i])
  {
    hide Units;
  }

  lemma BlocksRoomy(live: seq<Block>)
    ensures forall j :: 0 <= j < |live| ==> (Roomy(live[j]) <==> live[j].nbytes + HEADER - 1 < UINT)
  {
    forall j | 0 <= j < |live|
      ensures Roomy(live[j]) <==> live[j].nbytes + HEADER - 1 < UINT
    {
      UnitsSufficeIff(live[j].nbytes);
    }
  }
}
