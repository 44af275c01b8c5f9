/** The free list of the K&R allocator (umalloc.c) as a value: blocks in address order behind the empty base block.
    Addresses and sizes are in units of one header. */
module FreeLists {
  import opened Common

  const BASE: nat := 1        // where the static base header lies, below the heap; 0 is the null pointer
  const HEADER: nat := 8      // sizeof(Header)
  const MINUNITS: nat := 4096 // the least morecore asks for
  const KERNBASE := 0x8000_0000      // no process is as large as this

  type Uint = n: nat | n < UINT

  datatype Blk = Blk(a: nat, n: nat)

  /** Base first, addresses increasing, nonempty blocks, and no two of them adjacent. */
  ghost predicate FreeList(F: seq<Blk>) {
    && |F| >= 1 && F[0] == Blk(BASE, 0)
    && (forall i :: 0 < i < |F| ==> F[i].n >= 1)
    && (forall i, j :: 0 <= i < j < |F| ==> F[i].a + F[i].n < F[j].a)
  }

  predicate Apart(b: Blk, c: Blk) {
    b.a + b.n <= c.a || c.a + c.n <= b.a
  }

  predicate Holds(b: Blk, u: nat) {
    b.a <= u < b.a + b.n
  }

  ghost predicate InFree(F: seq<Blk>, u: nat) {
    exists i :: 0 <= i < |F| && Holds(F[i], u)
  }

  ghost predicate InAlloc(alloc: map<nat, nat>, u: nat) {
    exists a :: a in alloc && Holds(Blk(a, alloc[a]), u)
  }

  /** Allocated blocks lie above base, are nonempty and overlap neither each other nor a free block. */
  ghost predicate AllocOk(F: seq<Blk>, alloc: map<nat, nat>) {
    && (forall a :: a in alloc ==> a > BASE && alloc[a] >= 1)
    && (forall a, b :: a in alloc && b in alloc && a != b ==> Apart(Blk(a, alloc[a]), Blk(b, alloc[b])))
    && (forall a, i :: a in alloc && 0 <= i < |F| ==> Apart(Blk(a, alloc[a]), F[i]))
  }

  /** Free and allocated blocks together cover exactly the units obtained from sbrk. */
  ghost predicate Tiles(F: seq<Blk>, alloc: map<nat, nat>, units: set<nat>) {
    forall u: nat :: u in units <==> InFree(F, u) || InAlloc(alloc, u)
  }

  ghost predicate HeapOk(F: seq<Blk>, alloc: map<nat, nat>, units: set<nat>) {
    FreeList(F) && AllocOk(F, alloc) && Tiles(F, alloc, units)
  }

  /** No unit belongs to two blocks. */
  lemma UnitsHaveOneOwner(F: seq<Blk>, alloc: map<nat, nat>, units: set<nat>, u: nat)
    requires HeapOk(F, alloc, units)
    ensures !(InFree(F, u) && InAlloc(alloc, u))
    ensures forall i, j :: 0 <= i < |F| && 0 <= j < |F| && Holds(F[i], u) && Holds(F[j], u) ==> i == j
    ensures forall a, b :: a in alloc && b in alloc && Holds(Blk(a, alloc[a]), u) && Holds(Blk(b, alloc[b]), u) ==>
              a == b
  {
    forall i, a | 0 <= i < |F| && a in alloc
      ensures !(Holds(F[i], u) && Holds(Blk(a, alloc[a]), u))
    {
      assert Apart(Blk(a, alloc[a]), F[i]);
    }
    forall a, b | a in alloc && b in alloc && Holds(Blk(a, alloc[a]), u) && Holds(Blk(b, alloc[b]), u)
      ensures a == b
    {
    }
  }

  function Next(F: seq<Blk>, i: nat): nat {
    if i + 1 < |F| then i + 1 else 0
  }

  // ---- free ------------------------------------------------------------------------------------------------

  /** Block b belongs between entries k and k + 1. */
  ghost predicate GoesAfter(F: seq<Blk>, k: nat, b: Blk) {
    k < |F| && F[k].a < b.a && (k + 1 < |F| ==> b.a < F[k + 1].a)
  }

  predicate JoinsNext(F: seq<Blk>, k: nat, b: Blk) {
    k + 1 < |F| && b.a + b.n == F[k + 1].a
  }

  predicate JoinsPrev(F: seq<Blk>, k: nat, b: Blk)
    requires k < |F|
  {
    F[k].a + F[k].n == b.a
  }

  function Middle(F: seq<Blk>, k: nat, b: Blk): Blk {
    if JoinsNext(F, k, b) then Blk(b.a, b.n + F[k + 1].n) else b
  }

  /** The list after free put block b behind entry k, joined with its neighbours where they touch. */
  function Inserted(F: seq<Blk>, k: nat, b: Blk): seq<Blk>
    requires k < |F|
  {
    var tail := if JoinsNext(F, k, b) then F[k + 2..] else F[k + 1..];
    if JoinsPrev(F, k, b) then F[..k] + [Blk(F[k].a, F[k].n + Middle(F, k, b).n)] + tail
    else F[..k + 1] + [Middle(F, k, b)] + tail
  }

  /** How many entries the insertion swallows: the next one, the previous one. */
  function Swallows(F: seq<Blk>, k: nat, b: Blk): (r: (nat, nat))
    requires k < |F|
  {
    (if JoinsNext(F, k, b) then 1 else 0, if JoinsPrev(F, k, b) then 1 else 0)
  }

  /** The new list entry by entry. */
  lemma InsertedAt(F: seq<Blk>, k: nat, b: Blk)
    requires k < |F|
    ensures var G, mid := Inserted(F, k, b), Middle(F, k, b);
            var jn, jp := Swallows(F, k, b).0, Swallows(F, k, b).1;
            && |G| == |F| + 1 - jn - jp && k < |G| && (jp == 0 ==> k + 1 < |G|)
            && (forall i :: 0 <= i < k ==> G[i] == F[i])
            && (if jp == 1 then G[k] == Blk(F[k].a, F[k].n + mid.n) else G[k] == F[k] && G[k + 1] == mid)
            && (forall i :: k + 1 - jp < i < |G| ==> G[i] == F[i - 1 + jn + jp])
  {
  }

  lemma Ordered(F: seq<Blk>, i: nat, j: nat)
    requires FreeList(F) && i <= j < |F|
    ensures i < j ==> F[i].a + F[i].n < F[j].a
    ensures 0 < i ==> F[i].n >= 1
  {
  }

  lemma InsertedOrdered(F: seq<Blk>, k: nat, b: Blk, i: nat, j: nat)
    requires FreeList(F) && GoesAfter(F, k, b) && b.n >= 1
    requires Apart(b, F[k]) && (k + 1 < |F| ==> Apart(b, F[k + 1]))
    requires i < j < |Inserted(F, k, b)|
    ensures Inserted(F, k, b)[i].a + Inserted(F, k, b)[i].n < Inserted(F, k, b)[j].a
  {
    hide Inserted, FreeList;
    InsertedAt(F, k, b);
    var (jn, jp) := Swallows(F, k, b);
    var j' := if j <= k + 1 - jp then k else j - 1 + jn + jp;
    Ordered(F, k, j');
    if k + 1 <= j' { Ordered(F, k + 1, j'); }
    if i <= k {
      Ordered(F, i, k);
      if j <= k { Ordered(F, i, j); }
      Ordered(F, i, j');
    } else if i > k + 1 - jp {
      Ordered(F, i - 1 + jn + jp, j');
    }
  }

  lemma InsertedList(F: seq<Blk>, k: nat, b: Blk)
    requires FreeList(F) && GoesAfter(F, k, b) && b.n >= 1
    requires Apart(b, F[k]) && (k + 1 < |F| ==> Apart(b, F[k + 1]))
    ensures FreeList(Inserted(F, k, b)) && k < |Inserted(F, k, b)| && Inserted(F, k, b)[k].a == F[k].a
  {
    hide Inserted;
    InsertedAt(F, k, b);
    var G := Inserted(F, k, b);
    var (jn, jp) := Swallows(F, k, b);
    forall i, j | 0 <= i < j < |G|
      ensures G[i].a + G[i].n < G[j].a
    {
      InsertedOrdered(F, k, b, i, j);
    }
    forall i | 0 < i < |G|
      ensures G[i].n >= 1
    {
      assert i > k + 1 - jp ==> G[i] == F[i - 1 + jn + jp];
    }
  }

  lemma InsertedHead(F: seq<Blk>, k: nat, b: Blk)
    requires k < |F|
    ensures k < |Inserted(F, k, b)| && Inserted(F, k, b)[k].a == F[k].a
  {
    InsertedAt(F, k, b);
  }

  /** Where the new list's entries point. */
  lemma InsertedNext(F: seq<Blk>, k: nat, b: Blk, i: nat)
    requires FreeList(F) && k < |F| && i < |Inserted(F, k, b)|
    ensures var G := Inserted(F, k, b);
            var jn, jp := Swallows(F, k, b).0, Swallows(F, k, b).1;
            && k + jn < |F| && (i > k + 1 - jp ==> 0 <= i - 1 + jn + jp < |F|)
            && G[Next(G, i)].a ==
               if i < k then F[i + 1].a
               else if i == k && jp == 0 then Middle(F, k, b).a
               else if i <= k + 1 - jp then F[Next(F, k + jn)].a
               else F[Next(F, i - 1 + jn + jp)].a
  {
    hide Inserted;
    InsertedAt(F, k, b);
    var G := Inserted(F, k, b);
    assert k > 0 ==> G[0] == F[0];
  }

  /** Header sizes S and pointers P hold entry i of the circular list. */
  ghost predicate LinkedEntry(F: seq<Blk>, S: seq<nat>, P: seq<nat>, i: nat) {
    && i < |F| && |S| == |P| && F[i].a < |S|
    && S[F[i].a] == F[i].n && P[F[i].a] == F[Next(F, i)].a
  }

  ghost predicate LinkedList(F: seq<Blk>, S: seq<nat>, P: seq<nat>) {
    |S| == |P| && forall i: nat {:trigger LinkedEntry(F, S, P, i)} :: i < |F| ==> LinkedEntry(F, S, P, i)
  }

  /** What free writes: the headers of the block and of the entry before it, and no others. */
  ghost predicate LinkedBehind(F: seq<Blk>, S: seq<nat>, P: seq<nat>, S': seq<nat>, P': seq<nat>, k: nat, b: Blk) {
    && |S| == |P| == |S'| == |P'| && k < |F| && b.a < |S| && F[k].a < |S| && k + Swallows(F, k, b).0 < |F|
    && (forall x :: 0 <= x < |S| && x != b.a && x != F[k].a ==> S'[x] == S[x] && P'[x] == P[x])
    && (if JoinsPrev(F, k, b) then
          && S'[F[k].a] == F[k].n + Middle(F, k, b).n && P'[F[k].a] == F[Next(F, k + Swallows(F, k, b).0)].a
        else
          && S'[F[k].a] == F[k].n && P'[F[k].a] == b.a
          && S'[b.a] == Middle(F, k, b).n && P'[b.a] == F[Next(F, k + Swallows(F, k, b).0)].a)
  }

  lemma InsertedEntry(F: seq<Blk>, S: seq<nat>, P: seq<nat>, S': seq<nat>, P': seq<nat>, k: nat, b: Blk, i: nat)
    requires FreeList(F) && LinkedList(F, S, P) && LinkedBehind(F, S, P, S', P', k, b)
    requires forall j :: 0 <= j < |F| ==> F[j].a != b.a
    requires i < |Inserted(F, k, b)|
    ensures LinkedEntry(Inserted(F, k, b), S', P', i)
  {
    hide Inserted, FreeList, Next;
    InsertedAt(F, k, b);
    InsertedNext(F, k, b, i);
    var (jn, jp) := Swallows(F, k, b);
    if i < k {
      Ordered(F, i, k);
      assert LinkedEntry(F, S, P, i);
      NextOf(F, i);
    } else if i > k + 1 - jp {
      Ordered(F, k, i - 1 + jn + jp);
      assert LinkedEntry(F, S, P, i - 1 + jn + jp);
    } else {
      InsertedMiddle(F, S, P, S', P', k, b, i);
    }
  }

  lemma InsertedMiddle(F: seq<Blk>, S: seq<nat>, P: seq<nat>, S': seq<nat>, P': seq<nat>, k: nat, b: Blk, i: nat)
    requires FreeList(F) && LinkedBehind(F, S, P, S', P', k, b)
    requires i < |Inserted(F, k, b)| && k <= i <= k + 1 - Swallows(F, k, b).1
    ensures LinkedEntry(Inserted(F, k, b), S', P', i)
  {
    hide Inserted, FreeList, Next;
    InsertedAt(F, k, b);
    InsertedNext(F, k, b, i);
  }

  lemma NextOf(F: seq<Blk>, i: nat)
    ensures i + 1 < |F| ==> Next(F, i) == i + 1
  {
  }

  lemma InsertedCovers(F: seq<Blk>, k: nat, b: Blk, u: nat)
    requires FreeList(F) && GoesAfter(F, k, b) && b.n >= 1
    ensures InFree(F, u) || Holds(b, u) ==> InFree(Inserted(F, k, b), u)
  {
    hide Inserted, FreeList;
    InsertedAt(F, k, b);
    var (jn, jp) := Swallows(F, k, b);
    if Holds(b, u) {
      assert Holds(Inserted(F, k, b)[k + 1 - jp], u);
    } else if i :| 0 <= i < |F| && Holds(F[i], u) {
      var place := if i <= k then i else if i == k + 1 && jn == 1 then k + 1 - jp else i + 1 - jn - jp;
      assert Holds(Inserted(F, k, b)[place], u);
    }
  }

  lemma InsertedUnits(F: seq<Blk>, k: nat, b: Blk, u: nat)
    requires FreeList(F) && GoesAfter(F, k, b) && b.n >= 1
    ensures InFree(Inserted(F, k, b), u) <==> InFree(F, u) || Holds(b, u)
  {
    hide Inserted, FreeList;
    InsertedCovers(F, k, b, u);
    InsertedAt(F, k, b);
    var G := Inserted(F, k, b);
    var (jn, jp) := Swallows(F, k, b);
    if i :| 0 <= i < |G| && Holds(G[i], u) {
      if i < k {
        assert Holds(F[i], u);
      } else if i > k + 1 - jp {
        assert Holds(F[i - 1 + jn + jp], u);
      } else {
        assert Holds(F[k], u) || Holds(b, u) || (jn == 1 && Holds(F[k + 1], u));
      }
    }
  }

  lemma AllocAdded(alloc: map<nat, nat>, a: nat, n: nat, u: nat)
    requires a !in alloc
    ensures InAlloc(alloc[a := n], u) <==> InAlloc(alloc, u) || Holds(Blk(a, n), u)
  {
    var more := alloc[a := n];
    if InAlloc(alloc, u) {
      var c :| c in alloc && Holds(Blk(c, alloc[c]), u);
      assert c in more && Holds(Blk(c, more[c]), u);
    }
    if InAlloc(more, u) {
      var c :| c in more && Holds(Blk(c, more[c]), u);
      if c != a { assert c in alloc && Holds(Blk(c, alloc[c]), u); }
    }
    if Holds(Blk(a, n), u) {
      assert a in more && Holds(Blk(a, more[a]), u);
    }
  }

  /** Freeing a block moves its units from the allocated to the free side and keeps the heap sound. */
  lemma FreedOk(F: seq<Blk>, alloc: map<nat, nat>, units: set<nat>, k: nat, a: nat)
    requires HeapOk(F, alloc, units) && a in alloc && GoesAfter(F, k, Blk(a, alloc[a]))
    ensures HeapOk(Inserted(F, k, Blk(a, alloc[a])), alloc - {a}, units)
  {
    var b := Blk(a, alloc[a]);
    var G, rest := Inserted(F, k, b), alloc - {a};
    hide Inserted;
    InsertedList(F, k, b);
    assert alloc == rest[a := alloc[a]];
    forall u: nat
      ensures InFree(G, u) <==> InFree(F, u) || Holds(b, u)
      ensures InAlloc(alloc, u) <==> InAlloc(rest, u) || Holds(b, u)
    {
      InsertedUnits(F, k, b, u);
      AllocAdded(rest, a, alloc[a], u);
    }
    forall c, i | c in rest && 0 <= i < |G|
      ensures Apart(Blk(c, rest[c]), G[i])
    {
      ApartFromInserted(F, k, b, Blk(c, alloc[c]), i);
    }
  }

  lemma ApartFromInserted(F: seq<Blk>, k: nat, b: Blk, c: Blk, i: nat)
    requires FreeList(F) && GoesAfter(F, k, b) && b.n >= 1 && c.n >= 1
    requires forall j :: 0 <= j < |F| ==> Apart(b, F[j]) && Apart(c, F[j])
    requires Apart(b, c) && i < |Inserted(F, k, b)|
    ensures Apart(c, Inserted(F, k, b)[i])
  {
    hide Inserted, FreeList;
    InsertedAt(F, k, b);
    var (jn, jp) := Swallows(F, k, b);
    assert Apart(c, F[k]) && (k + 1 < |F| ==> Apart(c, F[k + 1]));
    assert i > k + 1 - jp ==> Inserted(F, k, b)[i] == F[i - 1 + jn + jp];
  }

  // ---- malloc ----------------------------------------------------------------------------------------------

  /** malloc's unit count, with the wrap of unsigned arithmetic. */
  function Units(nbytes: nat): nat {
    (nbytes + HEADER - 1) % UINT / HEADER + 1
  }

  /** The count leaves room for header and request unless the addition wraps: malloc(0xFFFFFFFF) asks for one unit. */
  lemma UnitsSufficeIff(nbytes: nat)
    requires nbytes < UINT
    ensures Units(nbytes) * HEADER >= nbytes + HEADER <==> nbytes + HEADER - 1 < UINT
    ensures nbytes + HEADER - 1 < UINT ==> Units(nbytes) * HEADER < nbytes + 2 * HEADER
    ensures Units(0xFFFF_FFFF) == 1
  {
  }

  /** Where malloc carves n units from entry j: the tail end. */
  function Carved(F: seq<Blk>, j: nat, n: nat): nat
    requires j < |F| && n <= F[j].n
  {
    F[j].a + F[j].n - n
  }

  function Without(F: seq<Blk>, j: nat, n: nat): seq<Blk>
    requires j < |F| && n <= F[j].n
  {
    if F[j].n == n then F[..j] + F[j + 1..] else F[j := Blk(F[j].a, F[j].n - n)]
  }

  lemma WithoutUnits(F: seq<Blk>, j: nat, n: nat, u: nat)
    requires FreeList(F) && 0 < j < |F| && 1 <= n <= F[j].n
    ensures InFree(F, u) <==> InFree(Without(F, j, n), u) || Holds(Blk(Carved(F, j, n), n), u)
  {
    var G := Without(F, j, n);
    if i :| 0 <= i < |F| && Holds(F[i], u) {
      if i < j { assert G[i] == F[i]; }
      else if i > j { assert F[i] == if F[j].n == n then G[i - 1] else G[i]; }
      else if u < Carved(F, j, n) { assert Holds(G[j], u); }
    }
    if i :| 0 <= i < |G| && Holds(G[i], u) {
      if i < j { assert F[i] == G[i]; }
      else if F[j].n == n { assert G[i] == F[i + 1]; }
      else { assert Holds(F[i], u); }
    }
    if Holds(Blk(Carved(F, j, n), n), u) {
      assert Holds(F[j], u);
    }
  }

  lemma WithoutAt(F: seq<Blk>, j: nat, n: nat)
    requires 0 < j < |F| && 1 <= n <= F[j].n
    ensures var G := Without(F, j, n);
            && |G| == (if F[j].n == n then |F| - 1 else |F|)
            && (forall i :: 0 <= i < j ==> G[i] == F[i])
            && (F[j].n == n ==> forall i :: j <= i < |G| ==> G[i] == F[i + 1])
            && (F[j].n != n ==> G[j] == Blk(F[j].a, F[j].n - n) && forall i :: j < i < |G| ==> G[i] == F[i])
  {
  }

  lemma WithoutOrdered(F: seq<Blk>, j: nat, n: nat, i: nat, l: nat)
    requires FreeList(F) && 0 < j < |F| && 1 <= n <= F[j].n && i < l < |Without(F, j, n)|
    ensures Without(F, j, n)[i].a + Without(F, j, n)[i].n < Without(F, j, n)[l].a
  {
    hide Without, FreeList;
    WithoutAt(F, j, n);
    var d := if F[j].n == n then 1 else 0;
    Ordered(F, if i < j then i else i + d, if l < j then l else l + d);
  }

  lemma WithoutList(F: seq<Blk>, j: nat, n: nat)
    requires FreeList(F) && 0 < j < |F| && 1 <= n <= F[j].n
    ensures FreeList(Without(F, j, n))
  {
    hide Without;
    WithoutAt(F, j, n);
    var G := Without(F, j, n);
    forall i, l | 0 <= i < l < |G|
      ensures G[i].a + G[i].n < G[l].a
    {
      WithoutOrdered(F, j, n, i, l);
    }
  }

  lemma CarvedApart(F: seq<Blk>, j: nat, n: nat, c: Blk, i: nat)
    requires FreeList(F) && 0 < j < |F| && 1 <= n <= F[j].n && i < |Without(F, j, n)|
    requires forall l :: 0 <= l < |F| ==> Apart(c, F[l])
    ensures Apart(c, Without(F, j, n)[i]) && Apart(c, Blk(Carved(F, j, n), n))
    ensures Apart(Blk(Carved(F, j, n), n), Without(F, j, n)[i])
  {
    hide Without;
    WithoutAt(F, j, n);
    Ordered(F, j, if i < j then j else if F[j].n == n then i + 1 else i);
    Ordered(F, if i < j then i else j, j);
    assert i < |F|;
    assert Apart(c, F[i]) && Apart(c, F[j]) && (i + 1 < |F| ==> Apart(c, F[i + 1]));
  }

  /** Carving a block moves its units from the free to the allocated side and keeps the heap sound. */
  lemma CarvedOk(F: seq<Blk>, alloc: map<nat, nat>, units: set<nat>, j: nat, n: nat)
    requires HeapOk(F, alloc, units) && 0 < j < |F| && 1 <= n <= F[j].n
    ensures Carved(F, j, n) !in alloc
    ensures HeapOk(Without(F, j, n), alloc[Carved(F, j, n) := n], units)
    ensures forall u: nat :: Holds(Blk(Carved(F, j, n), n), u) ==> u in units && !InAlloc(alloc, u)
  {
    hide Without;
    var G, a := Without(F, j, n), Carved(F, j, n);
    WithoutList(F, j, n);
    WithoutAt(F, j, n);
    assert a in alloc ==> Apart(Blk(a, alloc[a]), F[j]);
    var more := alloc[a := n];
    forall u: nat
      ensures InFree(F, u) <==> InFree(G, u) || Holds(Blk(a, n), u)
      ensures InAlloc(more, u) <==> InAlloc(alloc, u) || Holds(Blk(a, n), u)
      ensures Holds(Blk(a, n), u) ==> !InAlloc(alloc, u)
    {
      WithoutUnits(F, j, n, u);
      AllocAdded(alloc, a, n, u);
      UnitsHaveOneOwner(F, alloc, units, u);
    }
    CarvedAllocOk(F, alloc, j, n);
  }

  lemma CarvedAllocOk(F: seq<Blk>, alloc: map<nat, nat>, j: nat, n: nat)
    requires FreeList(F) && AllocOk(F, alloc) && 0 < j < |F| && 1 <= n <= F[j].n && Carved(F, j, n) !in alloc
    ensures AllocOk(Without(F, j, n), alloc[Carved(F, j, n) := n])
  {
    hide Without;
    var G, a := Without(F, j, n), Carved(F, j, n);
    var more := alloc[a := n];
    forall c, i | c in more && 0 <= i < |G|
      ensures Apart(Blk(c, more[c]), G[i])
    {
      CarvedApart(F, j, n, if c == a then F[0] else Blk(c, alloc[c]), i);
    }
    WithoutList(F, j, n);
    forall c | c in alloc
      ensures Apart(Blk(c, alloc[c]), Blk(a, n))
    {
      CarvedApart(F, j, n, Blk(c, alloc[c]), 0);
    }
  }

  // ---- morecore --------------------------------------------------------------------------------------------

  function UnitRange(p: nat, n: nat): set<nat> {
    set u: nat | p <= u < p + n && Holds(Blk(p, n), u)
  }

  /** Everything sound lies below a break that all units lie below. */
  lemma AllBelow(F: seq<Blk>, alloc: map<nat, nat>, units: set<nat>, p: nat)
    requires HeapOk(F, alloc, units) && p > BASE
    requires forall u :: u in units ==> u < p
    ensures forall i :: 0 <= i < |F| ==> F[i].a + F[i].n <= p
    ensures forall c :: c in alloc ==> c + alloc[c] <= p
  {
    forall i | 0 < i < |F|
      ensures F[i].a + F[i].n <= p
    {
      assert Holds(F[i], F[i].a + F[i].n - 1);
      assert InFree(F, F[i].a + F[i].n - 1);
    }
    forall c | c in alloc
      ensures c + alloc[c] <= p
    {
      assert Holds(Blk(c, alloc[c]), c + alloc[c] - 1);
      assert InAlloc(alloc, c + alloc[c] - 1);
    }
  }

  /** A fresh region from sbrk becomes one allocated block, ready to be freed. */
  lemma RegionOk(F: seq<Blk>, alloc: map<nat, nat>, units: set<nat>, p: nat, n: nat)
    requires HeapOk(F, alloc, units) && n >= 1 && p > BASE
    requires forall u :: u in units ==> u < p
    ensures p !in alloc && HeapOk(F, alloc[p := n], units + UnitRange(p, n))
  {
    AllBelow(F, alloc, units, p);
    forall u: nat
      ensures InAlloc(alloc[p := n], u) <==> InAlloc(alloc, u) || Holds(Blk(p, n), u)
      ensures u in UnitRange(p, n) <==> Holds(Blk(p, n), u)
    {
      AllocAdded(alloc, p, n, u);
    }
  }

  /** The entry that contains a freed block is at least as large. */
  lemma InsertedIsLarge(F: seq<Blk>, k: nat, b: Blk) returns (m: nat)
    requires FreeList(F) && GoesAfter(F, k, b) && b.n >= 1
    ensures m < |Inserted(F, k, b)| && Inserted(F, k, b)[m].n >= b.n
  {
    m := if JoinsPrev(F, k, b) then k else k + 1;
  }

  /** Writing a header outside the list leaves the list linked. */
  lemma SizesElsewhere(F: seq<Blk>, S: seq<nat>, S': seq<nat>, P: seq<nat>, a: nat)
    requires LinkedList(F, S, P) && a < |S| == |S'| && S' == S[a := S'[a]] && forall i :: 0 <= i < |F| ==> F[i].a != a
    ensures LinkedList(F, S', P)
  {
    forall i: nat | i < |F|
      ensures LinkedEntry(F, S', P, i)
    {
      assert LinkedEntry(F, S, P, i);
    }
  }

  /** Header sizes and pointers after malloc took n units from entry j, whose predecessor is entry i. */
  ghost predicate CarvedFrom(F: seq<Blk>, S: seq<nat>, P: seq<nat>, S': seq<nat>, P': seq<nat>, i: nat, j: nat,
                             n: nat) {
    && |S| == |P| == |S'| == |P'| && i < |F| && j == Next(F, i) && j > 0 && 1 <= n <= F[j].n
    && F[i].a < |S| && F[j].a < |S| && Carved(F, j, n) < |S|
    && if F[j].n == n then S' == S && P' == P[F[i].a := F[Next(F, j)].a]
       else S' == S[F[j].a := F[j].n - n][Carved(F, j, n) := n] && P' == P
  }

  lemma WithoutLinked(F: seq<Blk>, S: seq<nat>, P: seq<nat>, S': seq<nat>, P': seq<nat>, i: nat, j: nat, n: nat)
    requires FreeList(F) && LinkedList(F, S, P) && CarvedFrom(F, S, P, S', P', i, j, n)
    ensures LinkedList(Without(F, j, n), S', P') && i < |Without(F, j, n)| && Without(F, j, n)[i].a == F[i].a
  {
    hide Without, FreeList;
    WithoutAt(F, j, n);
    var G := Without(F, j, n);
    forall m: nat | m < |G|
      ensures LinkedEntry(G, S', P', m)
    {
      var m' := if F[j].n == n && m >= j then m + 1 else m;
      assert LinkedEntry(F, S, P, m');
      if m' < j { Ordered(F, m', j); Ordered(F, m', i); }
      if m' > j { Ordered(F, j, m'); Ordered(F, i, m'); }
    }
  }

  function Distance(n: nat, i: nat, k: nat): nat
    requires i < n && k < n
  {
    if i <= k then k - i else n - i + k
  }

  /** All entries from start on, going round, up to but not including entry stop are smaller than n. */
  ghost predicate SmallBetween(F: seq<Blk>, start: nat, stop: nat, n: nat)
    requires start < |F| && stop < |F|
  {
    forall j :: 0 <= j < |F| && Distance(|F|, start, j) < Distance(|F|, start, stop) ==> F[j].n < n
  }

  /** Behind entry i stands the first entry of at least n units, going round the list from behind entry f. */
  ghost predicate FirstFit(F: seq<Blk>, f: nat, i: nat, n: nat) {
    && f < |F| && i < |F| && Next(F, f) < |F| && Next(F, i) < |F|
    && SmallBetween(F, Next(F, f), Next(F, i), n) && F[Next(F, i)].n >= n
  }

  /** The list afterwards starts at the entry before, and p points behind the header of what was carved out. */
  ghost predicate TakenFirst(F: seq<Blk>, f: nat, F': seq<Blk>, f': nat, p: nat, n: nat) {
    && FirstFit(F, f, f', n)
    && F' == Without(F, Next(F, f'), n) && p == Carved(F, Next(F, f'), n) + 1
  }

  lemma SmallNext(F: seq<Blk>, f: nat, j: nat, n: nat)
    requires f < |F| && j < |F| && SmallBetween(F, Next(F, f), j, n) && F[j].n < n
    ensures j != f ==> SmallBetween(F, Next(F, f), Next(F, j), n)
    ensures j == f ==> forall m :: 0 <= m < |F| ==> F[m].n < n
  {
  }

  lemma DistanceStep(F: seq<Blk>, j: nat, k: nat)
    requires j < |F| && k < |F| && j != k
    ensures Next(F, j) < |F| && Distance(|F|, j, k) == Distance(|F|, Next(F, j), k) + 1
  {
  }

  lemma DistanceHome(F: seq<Blk>, i: nat, k: nat)
    requires i < |F| && k < |F|
    ensures Next(F, i) < |F| && Distance(|F|, Next(F, i), k) <= Distance(|F|, Next(F, i), i)
    ensures Distance(|F|, i, k) == 0 <==> i == k
  {
  }
}
