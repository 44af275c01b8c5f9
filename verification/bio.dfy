/** The buffer cache (bio.c): a circular doubly linked list of buffers, most recently used first.  Each method is one
    critical section, with the disk transfers of iderw done at once. */
module BufferCache {
  import opened Common

  /** A block's device and number. */
  type Key = (nat, nat)

  type Bytes = seq<int>

  /** What binit leaves in every buffer: a key under which several buffers may lie. */
  const UNUSED: Key := (0, 0)

  // ---- the list ---------------------------------------------------------------------------------------------------

  /** Entry i of the list; the head h comes before the first and after the last. */
  function At(order: seq<nat>, h: nat, i: int): nat {
    if 0 <= i < |order| then order[i] else h
  }

  predicate Link(next: seq<nat>, prev: seq<nat>, h: nat, order: seq<nat>, i: int)
    requires |next| == |prev|
  {
    && At(order, h, i - 1) < |next| && At(order, h, i) < |next|
    && next[At(order, h, i - 1)] == At(order, h, i) && prev[At(order, h, i)] == At(order, h, i - 1)
  }

  /** next leads around the list and prev the other way round. */
  ghost predicate Linked(next: seq<nat>, prev: seq<nat>, h: nat, order: seq<nat>) {
    && |next| == |prev| == h + 1
    && (forall i :: 0 <= i < |order| ==> order[i] < h)
    && (forall i, j :: 0 <= i < j < |order| ==> order[i] != order[j])
    && (forall i :: 0 <= i <= |order| ==> Link(next, prev, h, order, i))
  }

  function Without(order: seq<nat>, i: nat): seq<nat>
    requires i < |order|
  {
    order[..i] + order[i + 1..]
  }

  lemma Unlinked(next: seq<nat>, prev: seq<nat>, h: nat, order: seq<nat>, i: nat)
    requires Linked(next, prev, h, order) && i < |order|
    ensures next[order[i]] <= h && prev[order[i]] <= h
    ensures Linked(next[prev[order[i]] := next[order[i]]], prev[next[order[i]] := prev[order[i]]], h, Without(order, i))
  {
    var rest := Without(order, i);
    assert Link(next, prev, h, order, i) && Link(next, prev, h, order, i + 1);
    var next' := next[prev[order[i]] := next[order[i]]];
    var prev' := prev[next[order[i]] := prev[order[i]]];
    forall j | 0 <= j <= |rest|
      ensures Link(next', prev', h, rest, j)
    {
      if j < i {
        assert Link(next, prev, h, order, j);
      } else if j > i {
        assert Link(next, prev, h, order, j + 1);
      }
    }
  }

  lemma Pushed(next: seq<nat>, prev: seq<nat>, h: nat, order: seq<nat>, b: nat)
    requires Linked(next, prev, h, order) && b < h && b !in order
    ensures next[h] <= h
    ensures Linked(next[b := next[h]][h := b], prev[b := h][next[h] := b], h, [b] + order)
  {
    assert Link(next, prev, h, order, 0);
    var all, next', prev' := [b] + order, next[b := next[h]][h := b], prev[b := h][next[h] := b];
    forall j | 0 <= j <= |all|
      ensures Link(next', prev', h, all, j)
    {
      if j > 0 {
        assert Link(next, prev, h, order, j - 1);
      }
    }
  }

  // ---- the cache --------------------------------------------------------------------------------------------------

  datatype Buf = Buf(key: Key, valid: bool, dirty: bool, refcnt: nat, data: Bytes)

  class Cache {
    const h: nat                // the number of buffers, and the position of the list head
    const next: array<nat>
    const prev: array<nat>
    const bufs: array<Buf>
    var disk: map<Key, Bytes>

    ghost var order: seq<nat>   // the list, most recently used first
    ghost var released: seq<int> // when each buffer was last released by its last user, negative for never
    ghost var clock: nat

    ghost predicate Listed()
      reads this, next, prev, bufs
    {
      && next.Length == prev.Length == h + 1 && bufs.Length == h && |order| == h && |released| == h && next != prev
      && Linked(next[..], prev[..], h, order) && forall b: nat :: b < h ==> b in order
    }

    /** The list is ordered by the time of the last release. */
    ghost predicate ByRelease()
      reads this
    {
      && |released| == h && (forall i :: 0 <= i < |order| ==> order[i] < h)
      && (forall i, j :: 0 <= i < j < |order| ==> released[order[i]] > released[order[j]])
      && (forall b :: 0 <= b < h ==> released[b] < clock)
    }

    function OnDisk(k: Key): Bytes
      reads this
    {
      DiskBytes(disk, k)
    }

    /** At most one buffer per block, and clean valid buffers hold what is on disk. */
    ghost predicate Coherent()
      reads this, bufs
    {
      && (forall b, c :: 0 <= b < c < bufs.Length && bufs[b].key == bufs[c].key ==> bufs[b].key == UNUSED)
      && (forall b :: 0 <= b < bufs.Length && bufs[b].valid && !bufs[b].dirty ==> bufs[b].data == OnDisk(bufs[b].key))
      && (forall b :: 0 <= b < bufs.Length && bufs[b].dirty ==> bufs[b].valid)
    }

    ghost predicate Valid()
      reads this, next, prev, bufs
    {
      Listed() && ByRelease() && Coherent()
    }

    constructor (n: nat, image: map<Key, Bytes>)
      ensures Valid() && h == n && disk == image
      ensures forall b :: 0 <= b < n ==> bufs[b] == Buf(UNUSED, false, false, 0, [])
      ensures fresh(next) && fresh(prev) && fresh(bufs)
    {
      h := n;
      next := new nat[n + 1](_ => n);
      prev := new nat[n + 1](_ => n);
      bufs := new Buf[n](_ => Buf(UNUSED, false, false, 0, []));
      disk, clock := image, 0;
      order, released := [], seq(n, b => b - n);
      new;
      var b := 0;
      while b < n
        invariant b <= n == h && next.Length == prev.Length == n + 1 && next != prev && bufs.Length == n
        invariant Linked(next[..], prev[..], n, order) && |order| == b
        invariant forall i :: 0 <= i < b ==> order[i] == b - 1 - i
        invariant released == seq(n, b => b - n) && clock == 0 && disk == image
        invariant forall c :: 0 <= c < n ==> bufs[c] == Buf(UNUSED, false, false, 0, [])
        modifies next, prev, `order
      {
        Push(b);
        b := b + 1;
      }
      forall c: nat | c < n
        ensures c in order
      {
        assert order[n - 1 - c] == c;
      }
    }

    /** Linking a buffer in behind the head. */
    method Push(b: nat)
      requires next.Length == prev.Length == h + 1 && next != prev && b < h && b !in order
               && Linked(next[..], prev[..], h, order)
      modifies next, prev, `order
      ensures order == [b] + old(order) && Linked(next[..], prev[..], h, order)
    {
      hide Linked;
      Pushed(next[..], prev[..], h, order, b);
      ghost var was: seq<nat>, was': seq<nat> := next[..], prev[..];
      next[b] := next[h];
      prev[b] := h;
      prev[next[h]] := b;
      next[h] := b;
      assert next[..] == was[b := was[h]][h := b] && prev[..] == was'[b := h][was[h] := b];
      order := [b] + order;
    }

    // ---- bget -----------------------------------------------------------------------------------------------------

    predicate Recyclable(b: nat)
      reads this, bufs
      requires b < bufs.Length
    {
      bufs[b].refcnt == 0 && !bufs[b].dirty
    }

    lemma Around(i: int)
      requires Listed() && 0 <= i <= h
      ensures next[At(order, h, i - 1)] == At(order, h, i) && prev[At(order, h, i)] == At(order, h, i - 1)
      ensures At(order, h, i) <= h && (At(order, h, i) == h <==> i == h)
    {
      assert Link(next[..], prev[..], h, order, i);
    }

    /** Every buffer is in the list. */
    lemma InList(b: nat) returns (i: nat)
      requires Listed() && b < h
      ensures i < h && order[i] == b
    {
      assert b in order;
      i :| 0 <= i < |order| && order[i] == b;
    }

    /** bget's first loop. */
    method Find(k: Key) returns (b: nat, ghost at: nat)
      requires Listed()
      ensures at <= h && b <= h && b == At(order, h, at) && (b == h <==> at == h)
      ensures b < h ==> bufs[b].key == k
      ensures forall i :: 0 <= i < at ==> bufs[order[i]].key != k
    {
      at := 0;
      Around(0);
      b := next[h];
      while b != h && bufs[b].key != k
        invariant at <= h && b == At(order, h, at) && (b == h <==> at == h) && b <= h
        invariant forall i :: 0 <= i < at ==> bufs[order[i]].key != k
        decreases h - at
      {
        Around(at + 1);
        b := next[b];
        at := at + 1;
      }
    }

    /** bget's second loop. */
    method FindRecyclable() returns (b: nat, ghost at: int)
      requires Listed()
      ensures -1 <= at < h && b <= h && b == At(order, h, at) && (b == h <==> at == -1)
      ensures b < h ==> Recyclable(b)
      ensures forall i :: at < i < h ==> !Recyclable(order[i])
    {
      at := h - 1;
      Around(h);
      b := prev[h];
      while b != h && !Recyclable(b)
        invariant -1 <= at < h && b == At(order, h, at) && (b == h <==> at == -1) && b <= h
        invariant forall i :: at < i < h ==> !Recyclable(order[i])
        decreases at
      {
        Around(at);
        b := prev[b];
        at := at - 1;
      }
    }

    lemma ReleaseOrder()
      requires Valid()
      ensures forall i, j :: 0 <= i < j < |order| ==>
                order[i] < h && order[j] < h && released[order[i]] > released[order[j]]
    {
    }

    /** bget's first loop finds the buffer of the block if there is one. */
    method Cached(k: Key) returns (b: nat)
      requires Valid()
      ensures bufs.Length == h && b <= h && (b < h ==> bufs[b].key == k)
      ensures b == h ==> forall c: nat :: c < h ==> bufs[c].key != k
    {
      hide Linked, ByRelease;
      ghost var at;
      b, at := Find(k);
      if b == h {
        forall c: nat | c < h
          ensures bufs[c].key != k
        {
          var i := InList(c);
        }
      }
    }

    /** Its second loop finds the least recently released of the buffers that may be recycled. */
    method Victim() returns (b: nat)
      requires Valid()
      ensures bufs.Length == |released| == h && b <= h && (b < h ==> bufs[b].refcnt == 0 && !bufs[b].dirty)
      ensures forall c: nat :: c < h && bufs[c].refcnt == 0 && !bufs[c].dirty ==>
                b != h && released[b] <= released[c]
    {
      hide Linked, ByRelease;
      ReleaseOrder();
      ghost var last;
      b, last := FindRecyclable();
      forall c: nat | c < h
        ensures bufs[c].refcnt == 0 && !bufs[c].dirty ==> b != h && released[b] <= released[c]
      {
        var i := InList(c);
      }
    }

    /** bget: the buffer of the block if there is one, or else the least recently released buffer that is neither in use
        nor dirty; None is the panic for lack of buffers. */
    method Bget(k: Key) returns (r: Option<nat>)
      requires Valid()
      modifies bufs
      ensures Valid()
      ensures r.Some? ==> r.value < h && bufs[r.value].key == k && bufs[r.value].refcnt > 0
      ensures (exists b: nat :: b < h && old(bufs[b]).key == k) ==>
                r.Some? && old(bufs[r.value]).key == k
                && bufs[..] == old(bufs[..])[r.value := old(bufs[r.value]).(refcnt := old(bufs[r.value]).refcnt + 1)]
      ensures (forall b: nat :: b < h ==> old(bufs[b]).key != k) && r.Some? ==>
                && old(bufs[r.value]).refcnt == 0 && !old(bufs[r.value]).dirty
                && bufs[..] == old(bufs[..])[r.value := Buf(k, false, false, 1, old(bufs[r.value]).data)]
                && forall b: nat :: b < h && old(bufs[b]).refcnt == 0 && !old(bufs[b]).dirty ==>
                     released[r.value] <= released[b]
      ensures r.None? <==> forall b: nat :: b < h ==>
                old(bufs[b]).key != k && (old(bufs[b]).refcnt > 0 || old(bufs[b]).dirty)
      ensures r.None? ==> bufs[..] == old(bufs[..])
      ensures SameContents(old(bufs[..]), old(disk), bufs[..], disk)
    {
      hide SameContents, Linked, ByRelease;
      ghost var was := bufs[..];
      Unchanged(was, disk);
      var b := Cached(k);
      if b != h {
        CleanChange(was, was[b := bufs[b].(refcnt := bufs[b].refcnt + 1)], disk, b);
        bufs[b] := bufs[b].(refcnt := bufs[b].refcnt + 1);
        return Some(b);
      }
      b := Victim();
      if b != h {
        CleanChange(was, was[b := Buf(k, false, false, 1, bufs[b].data)], disk, b);
        bufs[b] := Buf(k, false, false, 1, bufs[b].data);
        return Some(b);
      }
      r := None;
    }

    /** The second half of bread, once the buffer is locked: its contents come from disk unless they are there. */
    method Fill(b: nat)
      requires Valid() && b < h && bufs[b].refcnt > 0
      modifies bufs
      ensures Valid() && bufs[b].valid
      ensures bufs[..] == old(bufs[..])[b := old(bufs[b]).(valid := true, data := bufs[b].data)]
      ensures old(bufs[b]).valid ==> bufs[b].data == old(bufs[b]).data
      ensures bufs[b].key != UNUSED ==> IsCurrent(bufs[..], disk, bufs[b].key, bufs[b].data)
      ensures SameContents(old(bufs[..]), disk, bufs[..], disk)
    {
      hide SameContents, Linked, ByRelease;
      ghost var was := bufs[..];
      Unchanged(was, disk);
      if !bufs[b].valid {
        CleanChange(was, was[b := bufs[b].(valid := true, data := OnDisk(bufs[b].key))], disk, b);
        bufs[b] := bufs[b].(valid := true, data := OnDisk(bufs[b].key));
      }
    }

    /** bread: the returned buffer holds the block's current contents. */
    method Bread(k: Key) returns (r: Option<nat>)
      requires Valid()
      modifies bufs
      ensures Valid()
      ensures r.Some? ==> r.value < h && bufs[r.value].key == k && bufs[r.value].refcnt > 0 && bufs[r.value].valid
      ensures r.Some? ==> bufs[r.value].dirty || bufs[r.value].data == OnDisk(k)
      ensures r.Some? && k != UNUSED ==> IsCurrent(bufs[..], disk, k, bufs[r.value].data)
      ensures r.None? ==> bufs[..] == old(bufs[..])
      ensures r.Some? ==>
                && bufs[..] == old(bufs[..])[r.value := bufs[r.value]]
                && (old(bufs[r.value]).key != k ==> old(bufs[r.value]).refcnt == 0)
      ensures r.Some? && old(bufs[r.value]).key == k ==>
                bufs[r.value] == old(bufs[r.value]).(refcnt := old(bufs[r.value]).refcnt + 1, valid := true,
                                                     data := bufs[r.value].data)
      ensures SameContents(old(bufs[..]), old(disk), bufs[..], disk)
    {
      hide SameContents, Linked, ByRelease, IsCurrent;
      ghost var was := bufs[..];
      r := Bget(k);
      if r.Some? {
        ghost var got := bufs[..];
        Fill(r.value);
        ContentsTrans(was, got, bufs[..], disk);
      }
    }

    /** A holder changes the data and log_write marks the buffer. */
    method Modify(b: nat, data: Bytes)
      requires Valid() && b < h && bufs[b].refcnt > 0 && bufs[b].valid && bufs[b].key != UNUSED
      modifies bufs
      ensures Valid() && bufs[..] == old(bufs[..])[b := old(bufs[b]).(data := data, dirty := true)]
      ensures IsCurrent(bufs[..], disk, bufs[b].key, data)
      ensures SameContentsBut(old(bufs[..]), disk, bufs[..], disk, bufs[b].key)
    {
      OneBlockChange(bufs[..], disk, bufs[..][b := bufs[b].(data := data, dirty := true)], disk, b);
      bufs[b] := bufs[b].(data := data, dirty := true);
    }

    /** Another buffer of the same block holds other data and takes them for what is on disk. */
    predicate Stale(c: nat, b: nat, data: Bytes)
      reads bufs
      requires b < bufs.Length && c < bufs.Length
    {
      c != b && bufs[c].key == bufs[b].key && bufs[c].valid && !bufs[c].dirty && bufs[c].data != data
    }

    /** A holder changes the data and bwrite sends it to disk. Of all blocks only (0, 0) can have a second buffer that
        goes stale by that. */
    method Bwrite(b: nat, data: Bytes)
      requires Valid() && b < h && bufs[b].refcnt > 0
      modifies bufs, this`disk
      ensures bufs.Length == h && disk == old(disk)[bufs[b].key := data]
      ensures Valid() <==> forall c: nat :: c < h ==> !Stale(c, b, data)
      ensures bufs[b].key != UNUSED ==> Valid() && IsCurrent(bufs[..], disk, bufs[b].key, data)
      ensures bufs[..] == old(bufs[..])[b := old(bufs[b]).(data := data, dirty := false, valid := true)]
      ensures SameContentsBut(old(bufs[..]), old(disk), bufs[..], disk, bufs[b].key)
    {
      OneBlockChange(bufs[..], disk, bufs[..][b := bufs[b].(data := data, dirty := false, valid := true)],
                     disk[bufs[b].key := data], b);
      bufs[b] := bufs[b].(data := data, dirty := true);
      disk := disk[bufs[b].key := data];
      bufs[b] := bufs[b].(dirty := false, valid := true);
      if c: nat :| c < h && Stale(c, b, data) {
        assert bufs[c].data != OnDisk(bufs[c].key);
      } else {
        forall c: nat | c < h && bufs[c].valid && !bufs[c].dirty
          ensures bufs[c].data == OnDisk(bufs[c].key)
        {
          assert !Stale(c, b, data);
        }
      }
    }

    /** brelse: the last user's release makes the buffer the most recently used. */
    method Brelse(b: nat)
      requires Valid() && b < h && bufs[b].refcnt > 0
      modifies this`order, this`released, this`clock, next, prev, bufs
      ensures Valid() && bufs[..] == old(bufs[..])[b := old(bufs[b]).(refcnt := old(bufs[b]).refcnt - 1)]
      ensures bufs[b].refcnt > 0 ==> order == old(order) && released == old(released)
      ensures bufs[b].refcnt == 0 ==> released == old(released)[b := old(clock)] && MovedToFront(old(order), order, b)
      ensures SameContents(old(bufs[..]), disk, bufs[..], disk)
    {
      CleanChange(bufs[..], bufs[..][b := bufs[b].(refcnt := bufs[b].refcnt - 1)], disk, b);
      bufs[b] := bufs[b].(refcnt := bufs[b].refcnt - 1);
      if bufs[b].refcnt == 0 {
        MoveToFront(b);
      }
    }

    static ghost predicate MovedToFront(all: seq<nat>, all': seq<nat>, b: nat) {
      exists i: nat :: i < |all| && all[i] == b && all' == [b] + Without(all, i)
    }

    /** Unlinking a buffer and linking it in behind the head. */
    method MoveToFront(b: nat)
      requires Listed() && ByRelease() && b < h
      modifies this`order, this`released, this`clock, next, prev
      ensures Listed() && ByRelease() && MovedToFront(old(order), order, b)
              && released == old(released)[b := old(clock)]
    {
      hide Linked;
      ghost var i := InList(b);
      ghost var was: seq<nat>, was': seq<nat>, all := next[..], prev[..], order;
      Unlinked(was, was', h, order, i);
      LinksDistinct(was, was', i, b);
      prev[next[b]] := prev[b];
      next[prev[b]] := next[b];
      assert next[..] == was[was'[b] := was[b]] && prev[..] == was'[was[b] := was'[b]];
      order := Without(order, i);
      WithoutOne(was, was', all, i, b);
      Push(b);
      released, clock := released[b := clock], clock + 1;
    }

    lemma WithoutOne(was: seq<nat>, was': seq<nat>, all: seq<nat>, i: nat, b: nat)
      requires Linked(was, was', h, all) && i < |all| && all[i] == b
      ensures b !in Without(all, i) && forall c :: c in all && c != b ==> c in Without(all, i)
    {
      forall c | c in all && c != b
        ensures c in Without(all, i)
      {
        var j :| 0 <= j < |all| && all[j] == c;
        assert Without(all, i)[if j < i then j else j - 1] == c;
      }
    }

    /** A buffer in the list is linked to others. */
    lemma LinksDistinct(was: seq<nat>, was': seq<nat>, i: nat, b: nat)
      requires Linked(was, was', h, order) && i < |order| && order[i] == b
      ensures b < |was| == |was'| && was[b] < |was| && was'[b] < |was| && was[b] != b && was'[b] != b
    {
      assert Link(was, was', h, order, i) && Link(was, was', h, order, i + 1);
    }
  }

  // ---- what a block's contents are --------------------------------------------------------------------------------

  function DiskBytes(disk: map<Key, Bytes>, k: Key): Bytes {
    if k in disk then disk[k] else []
  }

  /** The contents of a block: what a dirty buffer holds, or else what is on disk. */
  ghost predicate IsCurrent(bufs: seq<Buf>, disk: map<Key, Bytes>, k: Key, data: Bytes) {
    && (forall b :: 0 <= b < |bufs| && bufs[b].key == k && bufs[b].dirty ==> bufs[b].data == data)
    && ((forall b :: 0 <= b < |bufs| && bufs[b].key == k ==> !bufs[b].dirty) ==> data == DiskBytes(disk, k))
  }

  ghost predicate SameContentsBut(bufs: seq<Buf>, disk: map<Key, Bytes>, bufs': seq<Buf>, disk': map<Key, Bytes>,
                                  but: Key) {
    forall k: Key, data: Bytes :: k != UNUSED && k != but ==>
      (IsCurrent(bufs', disk', k, data) <==> IsCurrent(bufs, disk, k, data))
  }

  ghost predicate SameContents(bufs: seq<Buf>, disk: map<Key, Bytes>, bufs': seq<Buf>, disk': map<Key, Bytes>) {
    SameContentsBut(bufs, disk, bufs', disk', UNUSED)
  }
  /** A change to a buffer that is not dirty, or to the use count only, changes no block's contents. */
  lemma CleanChange(bufs: seq<Buf>, bufs': seq<Buf>, disk: map<Key, Bytes>, b: nat)
    requires b < |bufs| && |bufs'| == |bufs| && bufs' == bufs[b := bufs'[b]]
    requires (!bufs[b].dirty && !bufs'[b].dirty) || bufs'[b] == bufs[b].(refcnt := bufs'[b].refcnt)
    ensures SameContents(bufs, disk, bufs', disk)
  {
    forall k: Key, data: Bytes
      ensures IsCurrent(bufs', disk, k, data) <==> IsCurrent(bufs, disk, k, data)
    {
      forall c | 0 <= c < |bufs|
        ensures (bufs'[c].dirty && bufs'[c].key == k) <==> (bufs[c].dirty && bufs[c].key == k)
        ensures bufs[c].dirty ==> bufs'[c].data == bufs[c].data
      {
      }
    }
  }

  /** A change to the buffer of one block, and to that block on disk, leaves all other blocks' contents. */
  lemma OneBlockChange(bufs: seq<Buf>, disk: map<Key, Bytes>, bufs': seq<Buf>, disk': map<Key, Bytes>, b: nat)
    requires b < |bufs| && |bufs'| == |bufs| && bufs' == bufs[b := bufs'[b]] && bufs'[b].key == bufs[b].key
    requires forall k :: k != bufs[b].key ==> DiskBytes(disk', k) == DiskBytes(disk, k)
    ensures SameContentsBut(bufs, disk, bufs', disk', bufs[b].key)
  {
    forall k: Key, data: Bytes | k != bufs[b].key
      ensures IsCurrent(bufs', disk', k, data) <==> IsCurrent(bufs, disk, k, data)
    {
      forall c | 0 <= c < |bufs|
        ensures bufs[c].key == k || bufs'[c].key == k ==> bufs'[c] == bufs[c]
      {
      }
    }
  }

  lemma ContentsTrans(bufs: seq<Buf>, bufs1: seq<Buf>, bufs2: seq<Buf>, disk: map<Key, Bytes>)
    requires SameContents(bufs, disk, bufs1, disk) && SameContents(bufs1, disk, bufs2, disk)
    ensures SameContents(bufs, disk, bufs2, disk)
  {
  }

  lemma Unchanged(bufs: seq<Buf>, disk: map<Key, Bytes>)
    ensures SameContents(bufs, disk, bufs, disk)
  {
  }
}
