/** Whole runs through the buffer cache with any number of callers at a time: several may hold or wait for the same
    buffer while others are recycled, and every look at a block shows what was last written to it. */
module BufferCacheRun {
  import opened Common
  import opened BufferCache

  /** A call between bget and brelse: its buffer and block, and whether it has the buffer's sleep lock. */
  datatype Holder = Holder(b: nat, k: Key, locked: bool)

  /** What a caller does next: bget up to the sleep lock, the sleep lock and the rest of bread, a look at the data, a
      write to the cache only or through to disk, brelse. */
  datatype Step =
    | Get(who: nat, k: Key)
    | Lock(who: nat)
    | Look(who: nat)
    | Change(who: nat, data: Bytes, through: bool)
    | Release(who: nat)

  datatype Event = Saw(k: Key, data: Bytes) | Wrote(k: Key, data: Bytes)

  function Users(holders: map<nat, Holder>, b: nat): set<nat> {
    set w | w in holders && holders[w].b == b
  }

  /** Use counts are exact, nobody's buffer is recycled, and a buffer has at most one lock holder, who finds it valid.
      */
  ghost predicate Held(bufs: seq<Buf>, holders: map<nat, Holder>) {
    && (forall b: nat :: b < |bufs| ==> bufs[b].refcnt == |Users(holders, b)|)
    && (forall w :: w in holders ==> HeldBuffer(bufs, holders[w]))
    && (forall v, w :: v in holders && w in holders && BothLock(holders[v], holders[w]) ==> v == w)
  }

  predicate BothLock(g: Holder, h: Holder) {
    g.b == h.b && g.locked && h.locked
  }

  ghost predicate HeldBuffer(bufs: seq<Buf>, h: Holder) {
    h.b < |bufs| && bufs[h.b].key == h.k != UNUSED && (h.locked ==> bufs[h.b].valid)
  }

  /** What block k holds after these events. */
  function LastWritten(image: map<Key, Bytes>, events: seq<Event>, k: Key): Bytes {
    if events == [] then DiskBytes(image, k)
    else
      var e := events[|events| - 1];
      if e.Wrote? && e.k == k then e.data else LastWritten(image, events[..|events| - 1], k)
  }

  /** Every block's contents are what was last written to it. */
  ghost predicate Holds(bufs: seq<Buf>, disk: map<Key, Bytes>, image: map<Key, Bytes>, events: seq<Event>) {
    forall k: Key :: k != UNUSED ==> IsCurrent(bufs, disk, k, LastWritten(image, events, k))
  }

  /** Every look showed what was last written to the block before. */
  ghost predicate TrueReads(image: map<Key, Bytes>, events: seq<Event>) {
    forall i :: 0 <= i < |events| && events[i].Saw? ==> events[i].data == LastWritten(image, events[..i], events[i].k)
  }

  /** Looks and writes of lock holders are recorded, one event each, and nothing else is. */
  ghost predicate Recorded(step: Step, holders: map<nat, Holder>, events: seq<Event>, events': seq<Event>) {
    if (step.Look? || step.Change?) && step.who in holders && holders[step.who].locked then
      && |events'| == |events| + 1 && events <= events' && events'[|events|].k == holders[step.who].k
      && (step.Look? ==> events'[|events|].Saw?)
      && (step.Change? ==> events'[|events|] == Wrote(holders[step.who].k, step.data))
    else
      events' == events
  }

  /** Who holds what afterwards: bget gets a buffer unless all are in use or dirty, the sleep lock is taken if it is
      free, and brelse lets go. */
  ghost predicate Handled(bufs: seq<Buf>, step: Step, holders: map<nat, Holder>, holders': map<nat, Holder>) {
    match step
    case Get(who, k) =>
      if who in holders || k == UNUSED || NoneFor(bufs, k) then holders' == holders
      else exists b: nat :: b < |bufs| && holders' == holders[who := Holder(b, k, false)]
    case Lock(who) =>
      holders' == if who in holders && forall v :: v in holders && holders[v].b == holders[who].b ==> !holders[v].locked
                  then holders[who := holders[who].(locked := true)] else holders
    case Release(who) => holders' == if who in holders && holders[who].locked then holders - {who} else holders
    case _ => holders' == holders
  }

  /** Where bget panics. */
  ghost predicate NoneFor(bufs: seq<Buf>, k: Key) {
    forall b: nat :: b < |bufs| ==> bufs[b].key != k && (bufs[b].refcnt > 0 || bufs[b].dirty)
  }

  method Run(c: Cache, steps: seq<Step>) returns (holders: map<nat, Holder>, events: seq<Event>)
    requires c.Valid() && forall b :: 0 <= b < c.h ==> !c.bufs[b].dirty && c.bufs[b].refcnt == 0
    modifies c, c.next, c.prev, c.bufs
    ensures c.Valid() && Held(c.bufs[..], holders)
    ensures TrueReads(old(c.disk), events) && Holds(c.bufs[..], c.disk, old(c.disk), events)
  {
    hide c.Valid, Holds, Held, TrueReads;
    ghost var image := c.disk;
    holders, events := map[], [];
    NothingYet(c);
    for i := 0 to |steps|
      invariant c.Valid() && Held(c.bufs[..], holders)
      invariant TrueReads(image, events) && Holds(c.bufs[..], c.disk, image, events)
    {
      holders, events := TakeStep(c, steps[i], image, holders, events);
    }
  }

  method TakeStep(c: Cache, step: Step, ghost image: map<Key, Bytes>, holders: map<nat, Holder>, events: seq<Event>)
    returns (holders': map<nat, Holder>, events': seq<Event>)
    requires c.Valid() && Held(c.bufs[..], holders)
    requires TrueReads(image, events) && Holds(c.bufs[..], c.disk, image, events)
    modifies c, c.next, c.prev, c.bufs
    ensures c.Valid() && Held(c.bufs[..], holders')
    ensures TrueReads(image, events') && Holds(c.bufs[..], c.disk, image, events')
    ensures Recorded(step, holders, events, events')
    ensures Handled(old(c.bufs[..]), step, holders, holders')
  {
    hide NoneFor, c.Valid, Holds, Held, TrueReads, LastWritten;
    holders', events' := holders, events;
    match step
    case Get(who, k) =>
      if who !in holders && k != UNUSED {
        holders' := TakeGet(c, who, k, image, holders, events);
      }
    case Lock(who) =>
      if who in holders && forall v :: v in holders && holders[v].b == holders[who].b ==> !holders[v].locked {
        holders' := TakeLock(c, who, image, holders, events);
      }
    case Look(who) =>
      if who in holders && holders[who].locked {
        events' := TakeLook(c, who, image, holders, events);
      }
    case Change(who, data, through) =>
      if who in holders && holders[who].locked {
        events' := TakeChange(c, who, data, through, image, holders, events);
      }
    case Release(who) =>
      if who in holders && holders[who].locked {
        holders' := TakeRelease(c, who, image, holders, events);
      }
  }

  /** bget up to the point where it waits for the sleep lock. */
  method TakeGet(c: Cache, who: nat, k: Key, ghost image: map<Key, Bytes>, holders: map<nat, Holder>,
                 ghost events: seq<Event>)
    returns (holders': map<nat, Holder>)
    requires c.Valid() && Held(c.bufs[..], holders) && Holds(c.bufs[..], c.disk, image, events)
    requires who !in holders && k != UNUSED
    modifies c.bufs
    ensures c.Valid() && Held(c.bufs[..], holders') && Holds(c.bufs[..], c.disk, image, events)
    ensures Handled(old(c.bufs[..]), Get(who, k), holders, holders')
  {
    hide c.Valid, Holds, Held, SameContents;
    ghost var bufs0, disk0 := c.bufs[..], c.disk;
    Sizes(c);
    var r := c.Bget(k);
    HoldsOn(bufs0, disk0, c.bufs[..], image, events);
    if r.None? {
      return holders;
    }
    holders' := holders[who := Holder(r.value, k, false)];
    HeldMore(bufs0, c.bufs[..], holders, who, r.value, k);
  }

  /** The sleep lock is free: bread goes on. */
  method TakeLock(c: Cache, who: nat, ghost image: map<Key, Bytes>, holders: map<nat, Holder>, ghost events: seq<Event>)
    returns (holders': map<nat, Holder>)
    requires c.Valid() && Held(c.bufs[..], holders) && Holds(c.bufs[..], c.disk, image, events)
    requires who in holders && forall v :: v in holders && holders[v].b == holders[who].b ==> !holders[v].locked
    modifies c.bufs
    ensures c.Valid() && Held(c.bufs[..], holders') && Holds(c.bufs[..], c.disk, image, events)
    ensures holders' == holders[who := holders[who].(locked := true)]
  {
    hide c.Valid, Holds, Held, SameContents;
    ghost var bufs0, disk0 := c.bufs[..], c.disk;
    Sizes(c);
    InUse(bufs0, holders, who);
    c.Fill(holders[who].b);
    HoldsOn(bufs0, disk0, c.bufs[..], image, events);
    holders' := holders[who := holders[who].(locked := true)];
    HeldLocked(bufs0, c.bufs[..], holders, who);
  }

  method TakeLook(c: Cache, who: nat, ghost image: map<Key, Bytes>, holders: map<nat, Holder>, events: seq<Event>)
    returns (events': seq<Event>)
    requires c.Valid() && Held(c.bufs[..], holders)
    requires TrueReads(image, events) && Holds(c.bufs[..], c.disk, image, events)
    requires who in holders && holders[who].locked
    ensures holders[who].b < c.bufs.Length && events' == events + [Saw(holders[who].k, c.bufs[holders[who].b].data)]
    ensures TrueReads(image, events') && Holds(c.bufs[..], c.disk, image, events')
  {
    hide c.Valid, Holds, Held, TrueReads, LastWritten;
    Sizes(c);
    InUse(c.bufs[..], holders, who);
    var k, data := holders[who].k, c.bufs[holders[who].b].data;
    LookedAt(c, image, events, holders[who].b);
    events' := events + [Saw(k, data)];
    SawTruly(c.bufs[..], c.disk, image, events, k, data);
  }

  method TakeChange(c: Cache, who: nat, data: Bytes, through: bool, ghost image: map<Key, Bytes>,
                    holders: map<nat, Holder>, events: seq<Event>)
    returns (events': seq<Event>)
    requires c.Valid() && Held(c.bufs[..], holders)
    requires TrueReads(image, events) && Holds(c.bufs[..], c.disk, image, events)
    requires who in holders && holders[who].locked
    modifies c`disk, c.bufs
    ensures c.Valid() && Held(c.bufs[..], holders) && events' == events + [Wrote(holders[who].k, data)]
    ensures TrueReads(image, events') && Holds(c.bufs[..], c.disk, image, events')
  {
    hide c.Valid, Holds, Held, TrueReads, LastWritten, SameContentsBut, IsCurrent;
    ghost var bufs0, disk0 := c.bufs[..], c.disk;
    Sizes(c);
    InUse(bufs0, holders, who);
    if through {
      c.Bwrite(holders[who].b, data);
    } else {
      c.Modify(holders[who].b, data);
    }
    HeldChanged(bufs0, c.bufs[..], holders, holders[who].b);
    events' := events + [Wrote(holders[who].k, data)];
    WroteTruly(bufs0, disk0, c.bufs[..], c.disk, image, events, holders[who].k, data);
  }

  method TakeRelease(c: Cache, who: nat, ghost image: map<Key, Bytes>, holders: map<nat, Holder>,
                     ghost events: seq<Event>)
    returns (holders': map<nat, Holder>)
    requires c.Valid() && Held(c.bufs[..], holders) && Holds(c.bufs[..], c.disk, image, events)
    requires who in holders && holders[who].locked
    modifies c`order, c`released, c`clock, c.next, c.prev, c.bufs
    ensures c.Valid() && Held(c.bufs[..], holders') && Holds(c.bufs[..], c.disk, image, events)
    ensures holders' == holders - {who}
  {
    hide c.Valid, Holds, Held, SameContents;
    ghost var bufs0, disk0 := c.bufs[..], c.disk;
    Sizes(c);
    InUse(bufs0, holders, who);
    c.Brelse(holders[who].b);
    HoldsOn(bufs0, disk0, c.bufs[..], image, events);
    holders' := holders - {who};
    HeldLess(bufs0, c.bufs[..], holders, who);
  }

  lemma Sizes(c: Cache)
    requires c.Valid()
    ensures c.bufs.Length == c.h
  {
  }

  lemma NothingYet(c: Cache)
    requires c.Valid() && forall b :: 0 <= b < c.h ==> !c.bufs[b].dirty && c.bufs[b].refcnt == 0
    ensures Held(c.bufs[..], map[]) && TrueReads(c.disk, []) && Holds(c.bufs[..], c.disk, c.disk, [])
  {
  }

  /** A buffer somebody holds is in use, so that bget does not recycle it. */
  lemma InUse(bufs: seq<Buf>, holders: map<nat, Holder>, who: nat)
    requires Held(bufs, holders) && who in holders
    ensures HeldBuffer(bufs, holders[who]) && bufs[holders[who].b].refcnt > 0
  {
    assert HeldBuffer(bufs, holders[who]);
    assert who in Users(holders, holders[who].b);
  }

  lemma NobodyHolds(bufs: seq<Buf>, holders: map<nat, Holder>, b: nat)
    requires Held(bufs, holders) && b < |bufs| && bufs[b].refcnt == 0
    ensures forall w :: w in holders ==> holders[w].b != b
  {
    forall w | w in holders
      ensures holders[w].b != b
    {
      InUse(bufs, holders, w);
    }
  }

  lemma UsersMore(holders: map<nat, Holder>, who: nat, h: Holder)
    requires who !in holders
    ensures forall c: nat :: |Users(holders[who := h], c)| == |Users(holders, c)| + if c == h.b then 1 else 0
  {
    forall c: nat
      ensures |Users(holders[who := h], c)| == |Users(holders, c)| + if c == h.b then 1 else 0
    {
      assert Users(holders[who := h], c) == Users(holders, c) + if c == h.b then {who} else {};
    }
  }

  lemma UsersSame(holders: map<nat, Holder>, who: nat, h: Holder)
    requires who in holders && h.b == holders[who].b
    ensures forall c: nat :: Users(holders[who := h], c) == Users(holders, c)
  {
  }

  lemma UsersLess(holders: map<nat, Holder>, who: nat)
    requires who in holders
    ensures forall c: nat :: |Users(holders - {who}, c)| == |Users(holders, c)| - if c == holders[who].b then 1 else 0
  {
    forall c: nat
      ensures |Users(holders - {who}, c)| == |Users(holders, c)| - if c == holders[who].b then 1 else 0
    {
      assert Users(holders - {who}, c) == Users(holders, c) - if c == holders[who].b then {who} else {};
    }
  }

  lemma HeldMore(bufs: seq<Buf>, bufs': seq<Buf>, holders: map<nat, Holder>, who: nat, b: nat, k: Key)
    requires Held(bufs, holders) && who !in holders && k != UNUSED && b < |bufs| == |bufs'|
    requires bufs' == bufs[b := bufs'[b]] && bufs'[b].key == k
    requires if bufs[b].key == k then bufs'[b] == bufs[b].(refcnt := bufs[b].refcnt + 1)
             else bufs[b].refcnt == 0 && bufs'[b].refcnt == 1
    ensures Held(bufs', holders[who := Holder(b, k, false)])
  {
    hide Users;
    var holders' := holders[who := Holder(b, k, false)];
    UsersMore(holders, who, holders'[who]);
    if bufs[b].refcnt == 0 {
      NobodyHolds(bufs, holders, b);
    }
    forall w | w in holders
      ensures HeldBuffer(bufs', holders[w])
    {
      assert HeldBuffer(bufs, holders[w]);
    }
  }

  lemma HeldLocked(bufs: seq<Buf>, bufs': seq<Buf>, holders: map<nat, Holder>, who: nat)
    requires Held(bufs, holders) && who in holders && HeldBuffer(bufs, holders[who])
    requires forall v :: v in holders && holders[v].b == holders[who].b ==> !holders[v].locked
    requires |bufs'| == |bufs| && bufs' == bufs[holders[who].b := bufs'[holders[who].b]]
    requires bufs'[holders[who].b].key == holders[who].k && bufs'[holders[who].b].valid
    requires bufs'[holders[who].b].refcnt == bufs[holders[who].b].refcnt
    ensures Held(bufs', holders[who := holders[who].(locked := true)])
  {
    hide Users;
    var holders' := holders[who := holders[who].(locked := true)];
    UsersSame(holders, who, holders'[who]);
    forall w | w in holders
      ensures HeldBuffer(bufs', holders'[w])
    {
      assert HeldBuffer(bufs, holders[w]);
    }
  }

  lemma HeldChanged(bufs: seq<Buf>, bufs': seq<Buf>, holders: map<nat, Holder>, b: nat)
    requires Held(bufs, holders) && b < |bufs| == |bufs'| && bufs' == bufs[b := bufs'[b]]
    requires bufs'[b].key == bufs[b].key && bufs'[b].refcnt == bufs[b].refcnt && bufs'[b].valid
    ensures Held(bufs', holders)
  {
    forall w | w in holders
      ensures HeldBuffer(bufs', holders[w])
    {
      assert HeldBuffer(bufs, holders[w]);
    }
  }

  lemma HeldLess(bufs: seq<Buf>, bufs': seq<Buf>, holders: map<nat, Holder>, who: nat)
    requires Held(bufs, holders) && who in holders && HeldBuffer(bufs, holders[who])
    requires bufs[holders[who].b].refcnt > 0
    requires bufs' == bufs[holders[who].b := bufs[holders[who].b].(refcnt := bufs[holders[who].b].refcnt - 1)]
    ensures Held(bufs', holders - {who})
  {
    hide Users;
    var holders', b := holders - {who}, holders[who].b;
    UsersLess(holders, who);
    forall w | w in holders'
      ensures HeldBuffer(bufs', holders'[w])
    {
      assert HeldBuffer(bufs, holders[w]);
    }
  }

  lemma HoldsOn(bufs: seq<Buf>, disk: map<Key, Bytes>, bufs': seq<Buf>, image: map<Key, Bytes>, events: seq<Event>)
    requires SameContents(bufs, disk, bufs', disk) && Holds(bufs, disk, image, events)
    ensures Holds(bufs', disk, image, events)
  {
    hide IsCurrent, LastWritten;
  }

  /** A valid buffer under a block holds the block's contents. */
  lemma LookedAt(c: Cache, image: map<Key, Bytes>, events: seq<Event>, b: nat)
    requires c.Valid() && b < c.bufs.Length && c.bufs[b].valid && c.bufs[b].key != UNUSED
    requires Holds(c.bufs[..], c.disk, image, events)
    ensures c.bufs[b].data == LastWritten(image, events, c.bufs[b].key)
  {
    hide LastWritten;
    assert IsCurrent(c.bufs[..], c.disk, c.bufs[b].key, LastWritten(image, events, c.bufs[b].key));
  }

  lemma LastStep(image: map<Key, Bytes>, events: seq<Event>, e: Event)
    ensures forall k :: LastWritten(image, events + [e], k)
                        == if e.Wrote? && e.k == k then e.data else LastWritten(image, events, k)
  {
    assert (events + [e])[..|events|] == events;
  }

  lemma SawTruly(bufs: seq<Buf>, disk: map<Key, Bytes>, image: map<Key, Bytes>, events: seq<Event>, k: Key, data: Bytes)
    requires TrueReads(image, events) && Holds(bufs, disk, image, events) && data == LastWritten(image, events, k)
    ensures TrueReads(image, events + [Saw(k, data)]) && Holds(bufs, disk, image, events + [Saw(k, data)])
  {
    hide IsCurrent, LastWritten;
    var events' := events + [Saw(k, data)];
    LastStep(image, events, events'[|events|]);
    forall i | 0 <= i < |events|
      ensures events'[..i] == events[..i]
    {
    }
  }

  lemma WroteTruly(bufs: seq<Buf>, disk: map<Key, Bytes>, bufs': seq<Buf>, disk': map<Key, Bytes>,
                   image: map<Key, Bytes>, events: seq<Event>, k: Key, data: Bytes)
    requires SameContentsBut(bufs, disk, bufs', disk', k) && IsCurrent(bufs', disk', k, data)
    requires TrueReads(image, events) && Holds(bufs, disk, image, events)
    ensures TrueReads(image, events + [Wrote(k, data)]) && Holds(bufs', disk', image, events + [Wrote(k, data)])
  {
    hide IsCurrent, LastWritten;
    var events' := events + [Wrote(k, data)];
    LastStep(image, events, events'[|events|]);
    forall i | 0 <= i < |events|
      ensures events'[..i] == events[..i]
    {
    }
  }
}
