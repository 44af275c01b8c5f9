/** The K&R allocator of xv6 user programs (umalloc.c): headers in memory linked into a circular list, rewritten in
    place by free, morecore and malloc, with ghost copies of the free list, the blocks handed out and the memory
    obtained from sbrk. */
module Umalloc {
  import opened Common
  import opened FreeLists

  /** What a call comes to: a pointer, 0, or a header written at a place above the break, where the process has no
      memory. */
  datatype Outcome = Pointer(p: nat) | Null | Stray(at: nat)

  /** The argument of sbrk for nu units: their size in bytes, wrapped and read as an int. */
  function SbrkArgument(nu: nat): (n: int)
    requires nu <= UINT / HEADER
    ensures -KERNBASE <= n < KERNBASE && n % HEADER == 0
    ensures n > 0 <==> 0 < nu * HEADER < KERNBASE
    ensures n > 0 ==> n == nu * HEADER
  {
    var bytes := nu * HEADER % UINT;
    if bytes >= KERNBASE then bytes - UINT else bytes
  }

  /** deallocuvm's new size of a process of sz bytes that asks for n <= 0 more; it is unchanged if the sum wraps. */
  function NewSize(sz: nat, n: int): (r: nat)
    requires sz < KERNBASE && sz % HEADER == 0 && -KERNBASE <= n <= 0 && n % HEADER == 0
    ensures r % HEADER == 0 && r <= sz
    ensures r == if sz + n >= 0 then sz + n else sz
  {
    var newsz := if sz + n < 0 then sz + n + UINT else sz + n;
    if newsz >= sz then sz else newsz
  }

  /** Requests whose size in bytes, header included, is no positive int. */
  predicate TooLarge(nbytes: Uint) {
    Units(nbytes) * HEADER >= KERNBASE
  }

  class Allocator {
    const ptr: array<nat>   // s.ptr of the header at each address
    const size: array<nat>  // s.size of the header at each address
    var freep: nat          // 0 until the first malloc
    var brk: nat            // where sbrk will grow the heap next, the size of the process
    var mapped: nat         // the process has memory below this

    ghost var F: seq<Blk>            // the free list, base first
    ghost var fi: nat                // freep's place in it
    ghost var alloc: map<nat, nat>   // blocks handed out and their sizes
    ghost var units: set<nat>        // memory obtained from sbrk
    ghost var sbrks: nat             // calls of sbrk so far
    ghost var refusals: nat          // how many of them failed

    /** The headers in memory form the circular list F. */
    ghost predicate Linked()
      reads this, ptr, size
    {
      && ptr != size && ptr.Length == size.Length
      && fi < |F| && F[fi].a == freep
      && LinkedList(F, size[..], ptr[..])
    }

    ghost predicate Valid()
      reads this, ptr, size
    {
      && ptr != size && ptr.Length == size.Length && BASE < brk <= size.Length && size.Length * HEADER < KERNBASE
      && mapped == brk && (forall u :: u in units ==> u < brk)
      && if freep == 0 then alloc == map[] && units == {}
         else
           && Linked() && HeapOk(F, alloc, units)
           && (forall a :: a in alloc ==> a < size.Length && size[a] == alloc[a])
    }

    constructor (memory: nat, start: nat)
      requires BASE < start <= memory && memory * HEADER < KERNBASE
      ensures Valid() && alloc == map[] && units == {} && brk == start
      ensures fresh(ptr) && fresh(size)
    {
      ptr := new nat[memory](_ => 0);
      size := new nat[memory](_ => 0);
      freep, brk, mapped, F, fi, alloc, units := 0, start, start, [], 0, map[], {};
    }

    // ---- free --------------------------------------------------------------------------------------------------

    /** The place a block belongs, unique because the list is ordered. */
    lemma PlaceFor(F: seq<Blk>, b: nat) returns (k: nat)
      requires FreeList(F) && b > BASE && forall i :: 0 <= i < |F| ==> F[i].a != b
      ensures GoesAfter(F, k, Blk(b, 0))
      ensures forall i :: 0 <= i < |F| ==> (F[i].a < b <==> i <= k)
    {
      k := 0;
      while k + 1 < |F| && F[k + 1].a < b
        invariant k < |F| && F[k].a < b
      {
        k := k + 1;
      }
    }

    lemma EntryAt(i: nat)
      requires ptr.Length == size.Length && LinkedList(F, size[..], ptr[..]) && i < |F|
      ensures LinkedEntry(F, size[..], ptr[..], i)
      ensures F[i].a < size.Length && size[F[i].a] == F[i].n && ptr[F[i].a] == F[Next(F, i)].a
      ensures F[Next(F, i)].a < size.Length
    {
      assert LinkedEntry(F, size[..], ptr[..], i);
      assert LinkedEntry(F, size[..], ptr[..], Next(F, i));
    }

    /** The search loop of free: it stops at the entry the block belongs behind. */
    method FindPlace(bp: nat) returns (p: nat, ghost k: nat)
      requires Linked() && FreeList(F) && bp > BASE && forall i :: 0 <= i < |F| ==> F[i].a != bp
      ensures GoesAfter(F, k, Blk(bp, 0)) && p == F[k].a
    {
      k := PlaceFor(F, bp);
      p := freep;
      ghost var i: nat := fi;
      EntryAt(i);
      while !(bp > p && bp < ptr[p])
        invariant i < |F| && p == F[i].a && LinkedEntry(F, size[..], ptr[..], i) && F[Next(F, i)].a < ptr.Length
        decreases Distance(|F|, i, k)
      {
        if p >= ptr[p] && (bp > p || bp < ptr[p]) {
          break;
        }
        p := ptr[p];
        i := Next(F, i);
        EntryAt(i);
      }
    }

    method Free(ap: nat)
      requires Valid() && ap > 0 && ap - 1 in alloc
      modifies this, ptr, size
      ensures Valid() && alloc == old(alloc) - {ap - 1} && units == old(units) && brk == old(brk)
              && mapped == old(mapped)
      ensures freep != 0 && exists m :: 0 <= m < |F| && F[m].n >= old(alloc)[ap - 1]
      ensures GoesAfter(old(F), fi, Blk(ap - 1, old(alloc)[ap - 1]))
      ensures F == Inserted(old(F), fi, Blk(ap - 1, old(alloc)[ap - 1]))
      ensures sbrks == old(sbrks) && refusals == old(refusals)
    {
      hide HeapOk, LinkedList, Inserted;
      var bp := ap - 1;
      FreeingFacts(bp);
      var p, k := FindPlace(bp);
      ghost var b := Blk(bp, alloc[bp]);
      FreedOk(F, alloc, units, k, bp);
      ghost var m := InsertedIsLarge(F, k, b);
      InsertedHead(F, k, b);
      LinkIn(p, bp, k, b);
      alloc := alloc - {bp};
      F, fi := Inserted(F, k, b), k;
      freep := p;
      assert F[m].n >= b.n;
    }

    lemma FreeingFacts(bp: nat)
      requires Valid() && bp in alloc
      ensures freep != 0 && FreeList(F) && HeapOk(F, alloc, units) && LinkedList(F, size[..], ptr[..])
      ensures bp > BASE && bp < size.Length && size[bp] == alloc[bp] >= 1
      ensures forall i :: 0 <= i < |F| ==> F[i].a != bp
      ensures forall a :: a in alloc ==> forall i :: 0 <= i < |F| ==> F[i].a != a
    {
      forall i, a | 0 <= i < |F| && a in alloc
        ensures F[i].a != a
      {
        assert Apart(Blk(a, alloc[a]), F[i]);
      }
    }

    /** The pointer updates of free. */
    method LinkIn(p: nat, bp: nat, ghost k: nat, ghost b: Blk)
      requires ptr != size && LinkedList(F, size[..], ptr[..]) && FreeList(F)
      requires GoesAfter(F, k, b) && p == F[k].a && b.n >= 1
      requires b.a == bp < size.Length && size[bp] == b.n
      requires forall i :: 0 <= i < |F| ==> F[i].a != bp
      modifies ptr, size
      ensures LinkedList(Inserted(F, k, b), size[..], ptr[..])
      ensures forall x :: 0 <= x < size.Length && x != bp && x != p ==> size[x] == old(size[x])
    {
      hide Inserted;
      ghost var S, P := size[..], ptr[..];
      LinkWrites(p, bp, k, b);
      forall i: nat | i < |Inserted(F, k, b)|
        ensures LinkedEntry(Inserted(F, k, b), size[..], ptr[..], i)
      {
        InsertedEntry(F, S, P, size[..], ptr[..], k, b, i);
      }
    }

    /** What free's tests read: the entry before the block and the one after. */
    lemma LinkFacts(F: seq<Blk>, S: seq<nat>, P: seq<nat>, k: nat, b: Blk)
      requires FreeList(F) && LinkedList(F, S, P) && GoesAfter(F, k, b) && b.n >= 1
      requires forall i :: 0 <= i < |F| ==> F[i].a != b.a
      ensures k < |F| && F[k].a < |S| == |P| && F[k].a != b.a && S[F[k].a] == F[k].n
      ensures Next(F, k) < |F| && P[F[k].a] == F[Next(F, k)].a < |S|
      ensures b.a + b.n == F[Next(F, k)].a <==> JoinsNext(F, k, b)
      ensures JoinsNext(F, k, b) ==>
                && Next(F, k) == k + 1 && F[k].a != F[k + 1].a && F[k + 1].a != b.a
                && S[F[k + 1].a] == F[k + 1].n && P[F[k + 1].a] == F[Next(F, k + 1)].a
    {
      assert LinkedEntry(F, S, P, k) && LinkedEntry(F, S, P, Next(F, k));
    }

    method LinkWrites(p: nat, bp: nat, ghost k: nat, ghost b: Blk)
      requires ptr != size && LinkedList(F, size[..], ptr[..]) && FreeList(F)
      requires GoesAfter(F, k, b) && p == F[k].a && b.n >= 1
      requires b.a == bp < size.Length && size[bp] == b.n
      requires forall i :: 0 <= i < |F| ==> F[i].a != bp
      modifies ptr, size
      ensures LinkedBehind(F, old(size[..]), old(ptr[..]), size[..], ptr[..], k, b)
    {
      hide LinkedList, FreeList, Next, GoesAfter;
      ghost var S, P := size[..], ptr[..];
      LinkFacts(F, S, P, k, b);
      if bp + size[bp] == ptr[p] {
        size[bp] := size[bp] + size[ptr[p]];
        ptr[bp] := ptr[ptr[p]];
      } else {
        ptr[bp] := ptr[p];
      }
      if p + size[p] == bp {
        size[p] := size[p] + size[bp];
        ptr[p] := ptr[bp];
      } else {
        ptr[p] := bp;
      }
    }

    // ---- morecore ------------------------------------------------------------------------------------------------

    /** sbrk of n bytes. For n > 0 it fails, or gives memory above all earlier memory, not necessarily right behind it.
        For n <= 0 it takes memory away, and still returns the old break unless nothing would be left. */
    method Sbrk(n: int) returns (p: nat)
      requires -KERNBASE <= n < KERNBASE && n % HEADER == 0
      requires BASE < brk <= size.Length && size.Length * HEADER < KERNBASE && mapped == brk
      modifies this`brk, this`mapped, this`sbrks, this`refusals
      ensures n > 0 && p == 0 ==> brk == mapped == old(brk)
      ensures n > 0 && p != 0 ==> old(brk) <= p && brk == mapped == p + n / HEADER <= size.Length
      ensures n <= 0 ==> mapped * HEADER == NewSize(old(brk) * HEADER, n)
      ensures n <= 0 ==> p == (if mapped == 0 then 0 else old(brk)) && brk == if mapped == 0 then old(brk) else mapped
      ensures sbrks == old(sbrks) + 1 && refusals == old(refusals) + if p == 0 then 1 else 0
    {
      sbrks := sbrks + 1;
      if n > 0 {
        var granted: bool, gap: nat := *, *;
        if granted && brk + gap + n / HEADER <= size.Length {
          p := brk + gap;
          brk, mapped := p + n / HEADER, p + n / HEADER;
        } else {
          p := 0;
        }
      } else {
        mapped := NewSize(brk * HEADER, n) / HEADER;
        if mapped == 0 {
          p := 0;
        } else {
          p := brk;
          brk := mapped;
        }
      }
      refusals := if p == 0 then refusals + 1 else refusals;
    }

    /** A region fresh from sbrk becomes an allocated block, so that free can take it. */
    method AdoptRegion(hp: nat, nu: nat)
      requires Valid() && freep != 0 && nu >= 1
      requires hp > BASE && (forall u :: u in units ==> u < hp) && hp + nu <= brk
      modifies this`alloc, this`units, size
      ensures Valid() && freep != 0 && hp !in old(alloc) && alloc == old(alloc)[hp := nu]
      ensures units == old(units) + UnitRange(hp, nu)
    {
      hide HeapOk, FreeList;
      RegionOk(F, alloc, units, hp, nu);
      AllBelow(F, alloc, units, hp);
      ghost var S := size[..];
      ListBelow(F, alloc, units, hp);
      size[hp] := nu;
      assert size[..] == S[hp := nu];
      SizesElsewhere(F, S, size[..], ptr[..], hp);
      alloc, units := alloc[hp := nu], units + UnitRange(hp, nu);
    }

    lemma ListBelow(F: seq<Blk>, alloc: map<nat, nat>, units: set<nat>, p: nat)
      requires HeapOk(F, alloc, units) && p > BASE && forall u :: u in units ==> u < p
      ensures forall i :: 0 <= i < |F| ==> F[i].a < p
    {
      AllBelow(F, alloc, units, p);
    }

    /** morecore: at least MINUNITS units from sbrk, put on the free list as one freed block. When their size in bytes
        is no positive int, sbrk hands out the break itself, with no memory behind it. */
    method Morecore(nunits: nat) returns (r: Outcome)
      requires Valid() && freep != 0 && nunits <= UINT / HEADER
      modifies this, ptr, size
      ensures alloc == old(alloc) && old(units) <= units
      ensures r.Null? || r.Stray? ==> F == old(F) && fi == old(fi) && freep == old(freep) && units == old(units)
      ensures nunits * HEADER < KERNBASE ==> !r.Stray? && Valid() && freep != 0
      ensures r.Pointer? ==> nunits * HEADER < KERNBASE
      ensures r.Pointer? ==> r.p == freep && fi < |F| && exists m :: 0 <= m < |F| && F[m].n >= nunits
      ensures r.Pointer? ==> Grown(old(units), units, old(brk), brk, nunits)
      ensures nunits * HEADER >= KERNBASE ==> Cut(r, nunits, old(brk), brk, mapped)
      ensures sbrks == old(sbrks) + 1 && refusals == old(refusals) + if r.Null? then 1 else 0
    {
      hide HeapOk, LinkedList, Inserted, GoesAfter, FreeList, UnitRange;
      var nu := nunits;
      if nu < MINUNITS {
        nu := MINUNITS;
      }
      var n := SbrkArgument(nu);
      var hp := Sbrk(n);
      if hp == 0 {
        return Null;
      }
      if n <= 0 {
        return Stray(hp);
      }
      ghost var given := alloc;
      AdoptRegion(hp, nu);
      Free(hp + 1);
      assert alloc == given;
      r := Pointer(freep);
    }

    /** sbrk gave the units asked for, but no fewer than 4096, above all earlier memory. */
    static ghost predicate Grown(units0: set<nat>, units: set<nat>, brk0: nat, brk: nat, nunits: nat) {
      var nu := if nunits < 4096 then 4096 else nunits;
      brk0 + nu <= brk && units == units0 + UnitRange(brk - nu, nu)
    }

    /** What is left after sbrk was asked for no positive number of bytes: the process shrank, or it lost all its memory
        and sbrk failed. */
    static predicate Cut(r: Outcome, nu: nat, brk0: nat, brk: nat, mapped: nat)
      requires KERNBASE <= nu * HEADER <= UINT && brk0 * HEADER < KERNBASE
    {
      && mapped * HEADER == NewSize(brk0 * HEADER, SbrkArgument(nu))
      && (if mapped == 0 then r == Null && brk == brk0 else r == Stray(brk0) && brk == mapped <= brk0)
    }

    // ---- malloc --------------------------------------------------------------------------------------------------

    /** The first call sets up the base block. */
    method FirstCall()
      requires Valid()
      modifies this`freep, this`F, this`fi, ptr, size
      ensures Valid() && freep != 0
      ensures old(freep) != 0 ==> F == old(F) && fi == old(fi) && freep == old(freep)
      ensures old(freep) == 0 ==> F == [Blk(BASE, 0)]
    {
      if freep == 0 {
        ptr[BASE] := BASE;
        freep := BASE;
        size[BASE] := 0;
        F, fi := [Blk(BASE, 0)], 0;
        assert LinkedEntry(F, size[..], ptr[..], 0);
      }
    }

    /** The header writes of malloc's two cases: unlink an exact fit, or shrink the entry and keep its tail end. */
    method CarveOut(prevp: nat, p: nat, nunits: nat, ghost i: nat, ghost j: nat) returns (q: nat)
      requires ptr != size && ptr.Length == size.Length && LinkedList(F, size[..], ptr[..])
      requires i < |F| && j == Next(F, i) && prevp == F[i].a && p == F[j].a && 0 < j < |F| && Next(F, j) < |F|
      requires 1 <= nunits <= F[j].n && F[i].a < size.Length && F[j].a + F[j].n <= size.Length
      modifies ptr, size
      ensures q == Carved(F, j, nunits) < size.Length && size[q] == nunits
      ensures CarvedFrom(F, old(size[..]), old(ptr[..]), size[..], ptr[..], i, j, nunits)
      ensures forall a :: 0 <= a < size.Length && (a < p || a >= p + F[j].n) ==> size[a] == old(size[a])
    {
      hide LinkedList, Next;
      EntryAt(j);
      q := p;
      if size[p] == nunits {
        ptr[prevp] := ptr[p];
      } else {
        size[p] := size[p] - nunits;
        q := p + size[p];
        size[q] := nunits;
      }
    }

    /** Taking nunits units from the block at p, entry j, whose predecessor prevp is entry i: all of it, or its tail. */
    method Take(prevp: nat, p: nat, nunits: nat, ghost i: nat, ghost j: nat) returns (r: nat)
      requires Valid() && freep != 0 && i < |F| && j == Next(F, i) && prevp == F[i].a && p == F[j].a
      requires 1 <= nunits <= F[j].n
      modifies this`freep, this`F, this`fi, this`alloc, ptr, size
      ensures Valid() && freep != 0
      ensures r > 0 && r - 1 !in old(alloc) && alloc == old(alloc)[r - 1 := nunits]
      ensures F == Without(old(F), j, nunits) && fi == i && r == Carved(old(F), j, nunits) + 1
    {
      hide HeapOk, LinkedList, Without, Next, CarvedFrom;
      ListFacts(i, j);
      AllocElsewhere(j);
      ghost var S, P := size[..], ptr[..];
      CarvedOk(F, alloc, units, j, nunits);
      var q := CarveOut(prevp, p, nunits, i, j);
      WithoutLinked(F, S, P, size[..], ptr[..], i, j, nunits);
      freep := prevp;
      alloc := alloc[q := nunits];
      F, fi := Without(F, j, nunits), i;
      r := q + 1;
    }

    /** malloc: once around the list, morecore when nothing fits, and around again from the new memory. */
    method Malloc(nbytes: Uint) returns (r: Outcome)
      requires Valid()
      modifies this, ptr, size
      ensures Units(nbytes) * HEADER >= nbytes + HEADER <==> nbytes + HEADER - 1 < UINT
      ensures TooLarge(nbytes) ==>
                && alloc == old(alloc) && units == old(units) && sbrks == old(sbrks) + 1
                && Cut(r, Units(nbytes), old(brk), brk, mapped)
      ensures !TooLarge(nbytes) ==> Valid() && old(units) <= units && !r.Stray? && sbrks <= old(sbrks) + 1
      ensures r.Null? ==> alloc == old(alloc)
      ensures r.Pointer? ==> r.p > 0 && r.p - 1 !in old(alloc) && alloc == old(alloc)[r.p - 1 := Units(nbytes)]
      ensures refusals == old(refusals) + if r.Null? then 1 else 0
      ensures !TooLarge(nbytes) && old(freep) != 0
              && (exists m :: 0 <= m < |old(F)| && old(F)[m].n >= Units(nbytes)) ==>
                sbrks == old(sbrks)
      ensures r.Pointer? && sbrks == old(sbrks) ==>
                && old(freep) != 0 && units == old(units) && brk == old(brk)
                && TakenFirst(old(F), old(fi), F, fi, r.p, Units(nbytes))
      ensures r.Pointer? && sbrks > old(sbrks) ==> Grown(old(units), units, old(brk), brk, Units(nbytes))
    {
      hide Valid, SmallBetween, Units, Distance, Next, Cut, Grown, Without, Carved;
      var nunits := (nbytes + HEADER - 1) % UINT / HEADER + 1;
      NunitsIsUnits(nbytes, nunits);
      FirstCall();
      ghost var F0, fi0 := F, fi;
      var prevp := freep;
      ghost var i: nat, more, target: nat := fi, false, 0;
      StartSearch(nunits);
      var p := ptr[prevp];
      while true
        invariant Valid() && freep != 0 && alloc == old(alloc) && old(units) <= units
        invariant i < |F| && fi < |F| && Next(F, i) < |F| && prevp == F[i].a && p == F[Next(F, i)].a
        invariant sbrks == old(sbrks) + (if more then 1 else 0) && refusals == old(refusals)
        invariant !more ==>
                    F == F0 && fi == fi0 && Next(F, fi) < |F| && SmallBetween(F, Next(F, fi), Next(F, i), nunits)
        invariant !more ==> units == old(units) && brk == old(brk)
        invariant more ==> nunits * HEADER < KERNBASE && forall m :: 0 <= m < |F0| ==> F0[m].n < nunits
        invariant more ==> target < |F| && F[target].n >= nunits
        invariant more ==> Grown(old(units), units, old(brk), brk, nunits)
        invariant more ==> Distance(|F|, Next(F, i), target) <= Distance(|F|, Next(F, i), fi)
        decreases !more, Distance(|F|, Next(F, i), if more then target else fi)
      {
        ghost var j := Next(F, i);
        Facts(j);
        if size[p] >= nunits {
          var q := Take(prevp, p, nunits, i, j);
          return Pointer(q);
        }
        SearchStep(F, fi, j, nunits, more, target);
        if p == freep {
          r := Morecore(nunits);
          if !r.Pointer? {
            return;
          }
          p := r.p;
          target :| 0 <= target < |F| && F[target].n >= nunits;
          DistanceHome(F, fi, target);
          more := true;
          i := fi;
        } else {
          i := j;
        }
        prevp := p;
        Facts(i);
        p := ptr[p];
      }
    }

    static lemma NunitsIsUnits(nbytes: Uint, nunits: nat)
      requires nunits == (nbytes + HEADER - 1) % UINT / HEADER + 1
      ensures nunits == Units(nbytes) >= 1 && Units(nbytes) <= UINT / HEADER
      ensures Units(nbytes) * HEADER >= nbytes + HEADER <==> nbytes + HEADER - 1 < UINT
    {
      UnitsSufficeIff(nbytes);
    }

    /** An entry too small was passed: the search is one step nearer to its end, and does not come home twice. */
    static lemma SearchStep(F: seq<Blk>, fi: nat, j: nat, n: nat, more: bool, target: nat)
      requires fi < |F| && j < |F| && F[j].n < n
      requires !more ==> Next(F, fi) < |F| && SmallBetween(F, Next(F, fi), j, n)
      requires more ==> target < |F| && F[target].n >= n && Distance(|F|, j, target) <= Distance(|F|, j, fi)
      ensures !more && j == fi ==> forall m :: 0 <= m < |F| ==> F[m].n < n
      ensures !more && j != fi ==> Next(F, j) < |F| && SmallBetween(F, Next(F, fi), Next(F, j), n)
      ensures !more && j != fi ==> Distance(|F|, Next(F, j), fi) < Distance(|F|, j, fi)
      ensures more ==> j != fi && Next(F, j) < |F|
      ensures more ==> Distance(|F|, Next(F, j), target) < Distance(|F|, j, target)
      ensures more ==> Distance(|F|, Next(F, j), target) <= Distance(|F|, Next(F, j), fi)
    {
      if more {
        DistanceHome(F, j, target);
        DistanceHome(F, j, fi);
        DistanceStep(F, j, target);
        DistanceStep(F, j, fi);
      } else {
        SmallNext(F, fi, j, n);
        if j != fi { DistanceStep(F, j, fi); }
      }
    }

    lemma ListFacts(i: nat, j: nat)
      requires Valid() && freep != 0 && i < |F| && j == Next(F, i) && F[j].n >= 1
      ensures HeapOk(F, alloc, units) && FreeList(F) && LinkedList(F, size[..], ptr[..]) && j > 0 && j < |F|
      ensures ptr != size && ptr.Length == size.Length && F[i].a < size.Length && F[j].a + F[j].n <= size.Length
      ensures Next(F, j) < |F|
    {
      EntryAt(i);
      AllBelow(F, alloc, units, brk);
    }

    lemma AllocElsewhere(j: nat)
      requires HeapOk(F, alloc, units) && j < |F| && F[j].n >= 1
      ensures forall a :: a in alloc ==> a < F[j].a || a >= F[j].a + F[j].n
    {
      forall a | a in alloc
        ensures a < F[j].a || a >= F[j].a + F[j].n
      {
        assert Apart(Blk(a, alloc[a]), F[j]);
      }
    }

    /** What malloc's loop reads from a list entry. */
    lemma Facts(i: nat)
      requires Valid() && freep != 0 && i < |F|
      ensures ptr.Length == size.Length && F[i].a < size.Length && size[F[i].a] == F[i].n
      ensures ptr[F[i].a] == F[Next(F, i)].a && Next(F, i) < |F|
      ensures fi < |F| && (F[i].a == freep <==> i == fi) && F[i].n * HEADER < KERNBASE
    {
      AllBelow(F, alloc, units, brk);
      EntryAt(i);
      if i < fi { Ordered(F, i, fi); } else { Ordered(F, fi, i); }
    }

    lemma StartSearch(n: nat)
      requires Valid() && freep != 0
      ensures fi < |F| && Next(F, fi) < |F| && SmallBetween(F, Next(F, fi), Next(F, fi), n)
      ensures freep == F[fi].a < ptr.Length && ptr[freep] == F[Next(F, fi)].a
    {
      EntryAt(fi);
    }
  }
}
