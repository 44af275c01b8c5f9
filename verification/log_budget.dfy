/** What begin_op's reservation is worth (log.c): runs of the group commit machine in which every operation appends at
    most MAXOPBLOCKS blocks, and how large the log must be for them. */
module LogBudget {
  import opened LogDisk
  import opened Log
  import opened LogGroup

  /** Operation i may log b: it either is absorbed or stays within MAXOPBLOCKS blocks of its own. */
  ghost predicate InBudget(s: Sys, i: nat, b: nat) {
    i < |s.active| && (b !in s.lh ==> s.active[i].used < MAXOPBLOCKS)
  }

  ghost predicate NextInBudget(L: Layout, s: Sys, s': Sys) {
    || BeginStep(s, s')
    || (exists i: nat, b: nat, v: Block :: InBudget(s, i, b) && WriteStep(L, s, s', i, b, v))
    || (exists i: nat :: EndStep(s, s', i))
    || DiskStep(L, s, s')
    || FinishStep(L, s, s')
  }

  ghost predicate RunInBudget(L: Layout, d: Disk, run: seq<Sys>) {
    && |run| > 0 && Init(L, d, run[0])
    && forall k :: 0 <= k < |run| - 1 ==> NextInBudget(L, run[k], run[k + 1])
  }

  ghost predicate ReachableInBudget(L: Layout, d: Disk, s: Sys) {
    exists run :: RunInBudget(L, d, run) && run[|run| - 1] == s
  }

  lemma InBudgetIsNext(L: Layout, s: Sys, s': Sys)
    requires NextInBudget(L, s, s')
    ensures Next(L, s, s')
  {
    hide BeginStep, WriteStep, EndStep, DiskStep, FinishStep, InBudget;
  }

  /** Blocks the running operations may still append. */
  function Unused(active: seq<Op>): int {
    if active == [] then 0 else Unused(active[..|active| - 1]) + MAXOPBLOCKS - active[|active| - 1].used
  }

  /** The space reservation of begin_op. */
  ghost predicate Reserved(s: Sys) {
    && s.outstanding == |s.active|
    && (forall i :: 0 <= i < |s.active| ==> s.active[i].used <= MAXOPBLOCKS)
    && |s.lh| + Unused(s.active) <= LOGSIZE
  }

  // ---- the reservation ---------------------------------------------------------------------------------

  lemma {:induction false} UnusedBounds(active: seq<Op>)
    requires forall i :: 0 <= i < |active| ==> active[i].used <= MAXOPBLOCKS
    ensures 0 <= Unused(active) <= |active| * MAXOPBLOCKS
  {
    if active != [] {
      UnusedBounds(active[..|active| - 1]);
    }
  }

  lemma {:induction false} UnusedWithout(active: seq<Op>, i: nat)
    requires i < |active|
    ensures Unused(active[..i] + active[i + 1..]) == Unused(active) - (MAXOPBLOCKS - active[i].used)
  {
    var n := |active| - 1;
    if i < n {
      UnusedWithout(active[..n], i);
      var rest := active[..i] + active[i + 1..];
      assert rest[..n - 1] == active[..n][..i] + active[..n][i + 1..];
    } else {
      assert active[..i] + active[i + 1..] == active[..n];
    }
  }

  lemma {:induction false} UnusedUpdated(active: seq<Op>, i: nat, o: Op)
    requires i < |active|
    ensures Unused(active[i := o]) == Unused(active) + active[i].used - o.used
  {
    var n := |active| - 1;
    if i < n {
      assert active[i := o][..n] == active[..n][i := o];
      UnusedUpdated(active[..n], i, o);
    } else {
      assert active[i := o][..n] == active[..n];
    }
  }

  lemma BeginKeepsReserved(s: Sys, s': Sys)
    requires Reserved(s) && BeginStep(s, s')
    ensures Reserved(s')
  {
    assert s'.active[..|s.active|] == s.active;
    UnusedBounds(s.active);
  }

  lemma WriteKeepsReserved(L: Layout, s: Sys, s': Sys, i: nat, b: nat, v: Block)
    requires Reserved(s) && InBudget(s, i, b) && WriteStep(L, s, s', i, b, v)
    ensures Reserved(s')
  {
    UnusedUpdated(s.active, i, s'.active[i]);
  }

  lemma EndKeepsReserved(s: Sys, s': Sys, i: nat)
    requires Reserved(s) && EndStep(s, s', i)
    ensures Reserved(s')
  {
    UnusedWithout(s.active, i);
  }

  lemma ReservedKept(L: Layout, s: Sys, s': Sys)
    requires Reserved(s) && (s.committing ==> s.active == []) && NextInBudget(L, s, s')
    ensures Reserved(s')
  {
    hide CommitTrace, BeginStep, WriteStep, EndStep, Unused, Committing;
    if BeginStep(s, s') {
      BeginKeepsReserved(s, s');
    } else if i: nat, b: nat, v: Block :| InBudget(s, i, b) && WriteStep(L, s, s', i, b, v) {
      WriteKeepsReserved(L, s, s', i, b, v);
    } else if i: nat :| EndStep(s, s', i) {
      EndKeepsReserved(s, s', i);
    } else {
      UnusedBounds(s.active);
      assert s'.active == s.active && s'.outstanding == s.outstanding && |s'.lh| <= |s.lh|;
    }
  }

  /** An operation with budget left always finds room: an appending log_write is never refused for lack of log space,
      as long as the log has more than LOGSIZE blocks. */
  lemma RoomForBudget(L: Layout, s: Sys, i: nat)
    requires Reserved(s) && i < |s.active| && s.active[i].used < MAXOPBLOCKS
    ensures |s.lh| < LOGSIZE
    ensures L.size > LOGSIZE ==> !Full(L, |s.lh|)
  {
    UnusedWithout(s.active, i);
    UnusedBounds(s.active[..i] + s.active[i + 1..]);
  }

  lemma {:induction false} RunReserved(L: Layout, d: Disk, run: seq<Sys>)
    requires RunInBudget(L, d, run)
    ensures Run(L, d, run) && Reserved(run[|run| - 1])
  {
    hide NextInBudget, Next, Reserved;
    var n := |run| - 1;
    if n == 0 {
      InitReserved(L, d, run[0]);
    } else {
      RunReserved(L, d, run[..n]);
      InBudgetIsNext(L, run[n - 1], run[n]);
      forall k | 0 <= k < n
        ensures Next(L, run[k], run[k + 1])
      {
        if k < n - 1 { assert Next(L, run[..n][k], run[..n][k + 1]); }
      }
      RunInv(L, d, run[..n]);
      CommittingAlone(L, d, run[n - 1]);
      ReservedKept(L, run[n - 1], run[n]);
    }
  }

  lemma InitReserved(L: Layout, d: Disk, s: Sys)
    requires Init(L, d, s)
    ensures Reserved(s)
  {
  }

  lemma CommittingAlone(L: Layout, d: Disk, s: Sys)
    requires Inv(L, d, s)
    ensures s.committing ==> s.active == []
  {
  }

  /** The reservation holds in every state that operations within their budgets reach. */
  lemma ReachableReserved(L: Layout, d: Disk, s: Sys)
    requires ReachableInBudget(L, d, s)
    ensures Reachable(L, d, s) && Reserved(s)
  {
    hide Reserved;
    var run :| RunInBudget(L, d, run) && run[|run| - 1] == s;
    RunReserved(L, d, run);
  }

  lemma ExtendInBudget(L: Layout, d: Disk, s: Sys, s': Sys)
    requires ReachableInBudget(L, d, s) && NextInBudget(L, s, s')
    ensures ReachableInBudget(L, d, s')
  {
    hide NextInBudget;
    var run :| RunInBudget(L, d, run) && run[|run| - 1] == s;
    var run' := run + [s'];
    forall k | 0 <= k < |run'| - 1
      ensures NextInBudget(L, run'[k], run'[k + 1])
    {
      if k < |run| - 1 { assert NextInBudget(L, run[k], run[k + 1]); }
    }
    assert RunInBudget(L, d, run');
  }

  // ---- how large the log must be ---------------------------------------------------------------------------

  /** The i-th block outside the log. */
  function HomeBlock(L: Layout, i: nat): nat {
    if i < L.start then i else i + L.size
  }

  const ZERO: Block := seq(WORDS, _ => 0)

  /** How many of the first k appended blocks are operation j's, each operation taking MAXOPBLOCKS in turn. */
  function Share(k: nat, j: nat): nat {
    if k <= j * MAXOPBLOCKS then 0
    else if k >= (j + 1) * MAXOPBLOCKS then MAXOPBLOCKS
    else k - j * MAXOPBLOCKS
  }

  function HomeBlocks(L: Layout, k: nat): seq<nat> {
    seq(k, i requires 0 <= i < k => HomeBlock(L, i))
  }

  /** Three operations are running and have together appended the first k home blocks. */
  ghost predicate Filled(L: Layout, s: Sys, k: nat) {
    && s.lh == HomeBlocks(L, k)
    && s.outstanding == 3 && !s.committing
    && |s.active| == 3 && forall j :: 0 <= j < 3 ==> s.active[j].used == Share(k, j)
  }

  lemma ThreeBegin(L: Layout, d: Disk) returns (s: Sys)
    requires Clean(L, d)
    ensures ReachableInBudget(L, d, s) && Filled(L, s, 0)
  {
    s := Sys([], 0, false, map[], d, d, 0, [], 0, [], []);
    assert RunInBudget(L, d, [s]) && [s][0] == s;
    for i := 0 to 3
      invariant ReachableInBudget(L, d, s)
      invariant s.lh == [] && s.outstanding == i == |s.active| && !s.committing
      invariant forall j :: 0 <= j < i ==> s.active[j].used == 0
    {
      var s' := s.(outstanding := s.outstanding + 1, active := s.active + [Op(s.next_id, 0)], next_id := s.next_id + 1);
      assert BeginStep(s, s');
      ExtendInBudget(L, d, s, s');
      s := s';
    }
    assert s.lh == HomeBlocks(L, 0);
  }

  /** Every fill level up to what fits is reachable, each operation within its budget. */
  lemma {:induction false} FillLog(L: Layout, d: Disk, k: nat) returns (s: Sys)
    requires Clean(L, d) && L.nblocks - L.size >= LOGSIZE
    requires k <= LOGSIZE && k < L.size
    ensures ReachableInBudget(L, d, s) && Filled(L, s, k)
  {
    if k == 0 {
      s := ThreeBegin(L, d);
    } else {
      var t := FillLog(L, d, k - 1);
      s := FillStep(L, t, k - 1);
      ExtendInBudget(L, d, t, s);
    }
  }

  lemma FillStep(L: Layout, t: Sys, k: nat) returns (s: Sys)
    requires L.Valid() && L.nblocks - L.size > k && k < LOGSIZE && k + 1 < L.size && Filled(L, t, k)
    ensures NextInBudget(L, t, s) && Filled(L, s, k + 1)
  {
    hide CommitTrace, CacheFor;
    var i, b := k / MAXOPBLOCKS, HomeBlock(L, k);
    assert b !in t.lh;
    s := AfterWrite(t, i, b, ZERO);
    assert InBudget(t, i, b) && WriteStep(L, t, s, i, b, ZERO);
    assert s.lh == HomeBlocks(L, k + 1);
  }

  /** In some run an operation within its budget appends a block and log_write panics. */
  ghost predicate AppendCanPanic(L: Layout, d: Disk) {
    exists s, i: nat, b: nat ::
      ReachableInBudget(L, d, s) && InBudget(s, i, b) && L.Home(b) && b !in s.lh && Full(L, |s.lh|)
  }

  /** begin_op's reservation is enough exactly when the log is larger than LOGSIZE.  mkfs makes it LOGSIZE blocks,
      header included, which is one too few. */
  lemma ReservationSufficesIff(L: Layout, d: Disk)
    requires Clean(L, d) && L.nblocks - L.size > LOGSIZE
    ensures !AppendCanPanic(L, d) <==> L.size > LOGSIZE
  {
    if L.size > LOGSIZE {
      forall s, i: nat, b: nat | ReachableInBudget(L, d, s) && InBudget(s, i, b) && b !in s.lh
        ensures !Full(L, |s.lh|)
      {
        ReachableReserved(L, d, s);
        RoomForBudget(L, s, i);
      }
    } else {
      var k := L.size - 1;
      var s := FillLog(L, d, k);
      var i, b := k / MAXOPBLOCKS, HomeBlock(L, k);
      assert L.Home(b) && b !in s.lh;
      assert InBudget(s, i, b) && Full(L, |s.lh|);
    }
  }

  /** Rewriting a block that is already logged needs no space, yet log_write checks for space first: it panics exactly
      when the list is as long as it can get, whoever logged what. */
  lemma AbsorbingPanicsIff(L: Layout, d: Disk, s: Sys, b: nat)
    requires Reachable(L, d, s) && b in s.lh
    ensures Full(L, |s.lh|) <==> |s.lh| == if L.size > LOGSIZE then LOGSIZE else L.size - 1
  {
    ReachableInv(L, d, s);
  }

  /** In some run an operation within its budget rewrites a logged block and log_write panics. */
  ghost predicate AbsorbCanPanic(L: Layout, d: Disk) {
    exists s, i: nat, b: nat :: ReachableInBudget(L, d, s) && InBudget(s, i, b) && b in s.lh && Full(L, |s.lh|)
  }

  /** That happens with every log that can hold a block at all, also with one larger than LOGSIZE. */
  lemma AbsorbingCanPanicIff(L: Layout, d: Disk)
    requires Clean(L, d) && L.nblocks - L.size >= LOGSIZE
    ensures AbsorbCanPanic(L, d) <==> L.size > 1
  {
    if L.size > 1 {
      var s := FillLog(L, d, if L.size > LOGSIZE then LOGSIZE else L.size - 1);
      assert s.lh[0] == HomeBlock(L, 0);
      assert InBudget(s, 0, HomeBlock(L, 0)) && HomeBlock(L, 0) in s.lh && Full(L, |s.lh|);
    } else if s, i: nat, b: nat :| ReachableInBudget(L, d, s) && InBudget(s, i, b) && b in s.lh && Full(L, |s.lh|) {
      ReachableReserved(L, d, s);
      ReachableInv(L, d, s);
    }
  }

  // ---- whom begin_op lets in -------------------------------------------------------------------------------

  /** At most three operations run, and between commits nothing is logged unless one does. */
  ghost predicate IdleIsEmpty(s: Sys) {
    s.outstanding <= 3 && (!s.committing && s.outstanding == 0 ==> s.lh == [])
  }

  lemma IdleStaysEmpty(L: Layout, s: Sys, s': Sys)
    requires IdleIsEmpty(s) && Counted(s) && Next(L, s, s')
    ensures IdleIsEmpty(s')
  {
    hide CommitTrace, CacheFor, Full;
  }

  lemma {:induction false} RunIdle(L: Layout, d: Disk, run: seq<Sys>)
    requires Run(L, d, run)
    ensures IdleIsEmpty(run[|run| - 1])
  {
    hide Next, IdleIsEmpty;
    var n := |run| - 1;
    if n == 0 {
      assert IdleIsEmpty(run[0]) by { InitIdle(L, d, run[0]); }
    } else {
      forall k | 0 <= k < n - 1
        ensures Next(L, run[..n][k], run[..n][k + 1])
      {
        assert Next(L, run[k], run[k + 1]);
      }
      RunIdle(L, d, run[..n]);
      RunInv(L, d, run[..n]);
      IdleStaysEmpty(L, run[n - 1], run[n]);
    }
  }

  lemma InitIdle(L: Layout, d: Disk, s: Sys)
    requires Init(L, d, s)
    ensures IdleIsEmpty(s)
  {
  }

  lemma ReachableIdle(L: Layout, d: Disk, s: Sys)
    requires Reachable(L, d, s)
    ensures IdleIsEmpty(s) && Inv(L, d, s)
  {
    hide Next, Inv, IdleIsEmpty;
    var run :| Run(L, d, run) && run[|run| - 1] == s;
    RunIdle(L, d, run);
    ReachableInv(L, d, s);
  }

  /** Operations have logged the first k home blocks, the first three in turn, and m of the three are still running. */
  ghost predicate Remaining(L: Layout, s: Sys, k: nat, m: nat) {
    && m <= 3 && s.lh == HomeBlocks(L, k) && s.outstanding == m == |s.active| && !s.committing
    && forall j :: 0 <= j < m ==> s.active[j].used == Share(k, 3 - m + j)
  }

  lemma EndFirst(L: Layout, d: Disk, s: Sys, k: nat, m: nat) returns (s': Sys)
    requires ReachableInBudget(L, d, s) && Remaining(L, s, k, m) && m >= 2
    ensures ReachableInBudget(L, d, s') && Remaining(L, s', k, m - 1)
  {
    hide ReachableInBudget, HomeBlocks, Share;
    s' := s.(outstanding := s.outstanding - 1, active := s.active[..0] + s.active[1..]);
    assert EndStep(s, s', 0);
    ExtendInBudget(L, d, s, s');
  }

  lemma SomeRemain(L: Layout, d: Disk, k: nat, m: nat) returns (s: Sys)
    requires Clean(L, d) && L.nblocks - L.size >= LOGSIZE
    requires k <= LOGSIZE && k < L.size && 1 <= m <= 3
    ensures ReachableInBudget(L, d, s) && Remaining(L, s, k, m)
  {
    hide ReachableInBudget, Clean, Share, HomeBlocks;
    s := FillLog(L, d, k);
    assert Remaining(L, s, k, 3);
    if m < 3 {
      s := EndFirst(L, d, s, k, 3);
    }
    if m < 2 {
      s := EndFirst(L, d, s, k, 2);
    }
  }

  lemma RemainingUnused(L: Layout, s: Sys, k: nat, m: nat)
    requires Remaining(L, s, k, m) && 1 <= m && k <= 30
    ensures k + Unused(s.active) == if k + 10 * m <= 30 then k + 10 * m else 30
  {
    hide HomeBlocks;
    var a := s.active;
    UnusedOfFew(a);
    assert a[m - 1].used == Share(k, 2);
    assert m >= 2 ==> a[m - 2].used == Share(k, 1);
    assert m == 3 ==> a[0].used == Share(k, 0);
  }

  lemma UnusedOfFew(a: seq<Op>)
    requires 1 <= |a| <= 3
    ensures Unused(a) == 10 - a[0].used + (if |a| >= 2 then 10 - a[1].used else 0)
                         + if |a| == 3 then 10 - a[2].used else 0
  {
    assert Unused([]) == 0;
    UnusedSnoc([], a[0]);
    assert [] + [a[0]] == [a[0]];
    if |a| == 1 {
      assert a == [a[0]];
    } else {
      UnusedSnoc([a[0]], a[1]);
      if |a| == 2 {
        assert a == [a[0]] + [a[1]];
      } else {
        UnusedSnoc([a[0]] + [a[1]], a[2]);
        assert a == [a[0]] + [a[1]] + [a[2]];
      }
    }
  }

  lemma UnusedSnoc(active: seq<Op>, o: Op)
    ensures Unused(active + [o]) == Unused(active) + MAXOPBLOCKS - o.used
  {
    assert (active + [o])[..|active|] == active;
  }

  /** An operation joins a group while there is room: with k blocks logged the m-th operation gets in whenever
      k + m * MAXOPBLOCKS is within LOGSIZE.  The first operation of a group finds the list empty (ReachableIdle). */
  lemma JoinsGroup(L: Layout, d: Disk, k: nat, m: nat) returns (s: Sys, s': Sys)
    requires Clean(L, d) && L.nblocks - L.size >= LOGSIZE && k < L.size
    requires m > 0 && k + m * 10 <= 30 && (m == 1 ==> k == 0)
    ensures ReachableInBudget(L, d, s) && |s.lh| == k && s.outstanding == m - 1 && !s.committing
    ensures BeginStep(s, s') && ReachableInBudget(L, d, s') && |s'.lh| == k && s'.outstanding == m
  {
    if m == 1 {
      s := Sys([], 0, false, map[], d, d, 0, [], 0, [], []);
      assert RunInBudget(L, d, [s]) && [s][0] == s;
    } else {
      s := SomeRemain(L, d, k, m - 1);
    }
    s' := s.(outstanding := s.outstanding + 1, active := s.active + [Op(s.next_id, 0)], next_id := s.next_id + 1);
    assert BeginStep(s, s');
    ExtendInBudget(L, d, s, s');
  }

  /** begin_op sees no difference between the states. */
  ghost predicate SameCounters(L: Layout, d: Disk, t: Sys, s: Sys) {
    ReachableInBudget(L, d, t) && !t.committing && |t.lh| == |s.lh| && t.outstanding == s.outstanding
  }

  /** One more operation, admitted or not. */
  function Begun(s: Sys): Sys {
    s.(outstanding := s.outstanding + 1, active := s.active + [Op(s.next_id, 0)], next_id := s.next_id + 1)
  }

  ghost predicate WriteInBudget(L: Layout, s: Sys, s': Sys) {
    exists i: nat, b: nat, v: Block :: InBudget(s, i, b) && WriteStep(L, s, s', i, b, v)
  }

  ghost predicate Writes(L: Layout, run: seq<Sys>) {
    |run| > 0 && forall k :: 0 <= k < |run| - 1 ==> WriteInBudget(L, run[k], run[k + 1])
  }

  /** An operation within its budget has a block to append and log_write panics. */
  ghost predicate Overrun(L: Layout, s: Sys) {
    exists i: nat, b: nat :: InBudget(s, i, b) && L.Home(b) && b !in s.lh && Full(L, |s.lh|)
  }

  /** The running operations can overrun the log, each within its budget. */
  ghost predicate CanOverrun(L: Layout, s: Sys) {
    exists run :: Writes(L, run) && run[0] == s && Overrun(L, run[|run| - 1])
  }

  lemma {:induction false} ReservedWrites(L: Layout, run: seq<Sys>)
    requires Writes(L, run) && Reserved(run[0])
    ensures Reserved(run[|run| - 1])
  {
    hide Reserved, InBudget, WriteStep;
    var n := |run| - 1;
    if n > 0 {
      forall k | 0 <= k < n - 1
        ensures WriteInBudget(L, run[..n][k], run[..n][k + 1])
      {
        assert WriteInBudget(L, run[k], run[k + 1]);
      }
      ReservedWrites(L, run[..n]);
      assert WriteInBudget(L, run[n - 1], run[n]);
      var i: nat, b: nat, v: Block :| InBudget(run[n - 1], i, b) && WriteStep(L, run[n - 1], run[n], i, b, v);
      WriteKeepsReserved(L, run[n - 1], run[n], i, b, v);
    }
  }

  lemma ReservedCannotOverrun(L: Layout, s: Sys)
    requires Reserved(s) && L.size > LOGSIZE
    ensures !CanOverrun(L, s)
  {
    hide Reserved, Full;
    if run :| Writes(L, run) && run[0] == s && Overrun(L, run[|run| - 1]) {
      ReservedWrites(L, run);
      var u := run[|run| - 1];
      var i: nat, b: nat :| InBudget(u, i, b) && L.Home(b) && b !in u.lh && Full(L, |u.lh|);
      RoomForBudget(L, u, i);
      assert false;
    }
  }

  lemma {:induction false} SomeBudget(active: seq<Op>) returns (i: nat)
    requires Unused(active) > 0
    ensures i < |active| && active[i].used < MAXOPBLOCKS
  {
    var n := |active| - 1;
    if active[n].used < MAXOPBLOCKS {
      i := n;
    } else {
      i := SomeBudget(active[..n]);
    }
  }

  /** How many blocks log_write takes. */
  function Room(L: Layout): int {
    if L.size > LOGSIZE then LOGSIZE else L.size - 1
  }

  /** Operations whose budgets exceed the log can fill it with home blocks, and one of them then has one too many. */
  lemma {:induction false} Overruns(L: Layout, s: Sys, k: nat)
    requires L.Valid() && L.nblocks - L.size > LOGSIZE && k <= Room(L)
    requires s.lh == HomeBlocks(L, k) && s.outstanding >= 1 && k + Unused(s.active) > Room(L)
    ensures CanOverrun(L, s)
    decreases Room(L) - k
  {
    var i := SomeBudget(s.active);
    var b := HomeBlock(L, k);
    assert InBudget(s, i, b) && L.Home(b) && b !in s.lh;
    if k == Room(L) {
      assert Overrun(L, [s][0]) && Writes(L, [s]);
    } else {
      var s' := AfterWrite(s, i, b, ZERO);
      assert s'.lh == HomeBlocks(L, k + 1);
      UnusedUpdated(s.active, i, s'.active[i]);
      Overruns(L, s', k + 1);
      assert WriteStep(L, s, s', i, b, ZERO);
      OverrunLater(L, s, s');
    }
  }

  lemma OverrunLater(L: Layout, s: Sys, s': Sys)
    requires WriteInBudget(L, s, s') && CanOverrun(L, s')
    ensures CanOverrun(L, s)
  {
    hide WriteInBudget, Overrun;
    var run :| Writes(L, run) && run[0] == s' && Overrun(L, run[|run| - 1]);
    var run' := [s] + run;
    forall k | 0 <= k < |run'| - 1
      ensures WriteInBudget(L, run'[k], run'[k + 1])
    {
      if k > 0 { assert WriteInBudget(L, run[k - 1], run[k]); }
    }
    assert Writes(L, run');
  }

  /** As far as begin_op can see, one more operation cannot overrun the log. */
  ghost predicate Safe(L: Layout, d: Disk, s: Sys) {
    forall t :: SameCounters(L, d, t, s) ==> !CanOverrun(L, Begun(t))
  }

  /** Outside a commit, begin_op turns an operation away only where admitting it can let writes within their budgets
      overrun the log: some state with as many blocks logged and as many operations running overruns it. */
  lemma RefusalJustified(L: Layout, d: Disk, s: Sys)
    requires Clean(L, d) && L.nblocks - L.size > LOGSIZE
    requires ReachableInBudget(L, d, s) && !s.committing && !Admits(|s.lh|, s.outstanding, s.committing)
    ensures !Safe(L, d, s)
  {
    hide ReachableInBudget, CanOverrun, Clean;
    ReachableReserved(L, d, s);
    ReachableIdle(L, d, s);
    var k, m := |s.lh|, s.outstanding;
    var t := SomeRemain(L, d, k, m);
    RemainingUnused(L, t, k, m);
    UnusedSnoc(t.active, Op(t.next_id, 0));
    Overruns(L, Begun(t), k);
    assert SameCounters(L, d, t, s);
  }

  lemma AdmittedIsSafe(L: Layout, d: Disk, s: Sys)
    requires L.size > LOGSIZE && Admits(|s.lh|, s.outstanding, s.committing)
    ensures Safe(L, d, s)
  {
    hide ReachableInBudget, CanOverrun;
    forall t | SameCounters(L, d, t, s)
      ensures !CanOverrun(L, Begun(t))
    {
      ReachableReserved(L, d, t);
      BeginKeepsReserved(t, Begun(t));
      ReservedCannotOverrun(L, Begun(t));
    }
  }

  /** In every reachable state outside a commit an operation is let in if and only if that is safe. */
  ghost predicate AdmitsExactly(L: Layout, d: Disk) {
    forall s :: ReachableInBudget(L, d, s) && !s.committing ==>
      (Admits(|s.lh|, s.outstanding, s.committing) <==> Safe(L, d, s))
  }

  /** begin_op's test is exact for what it looks at if and only if the log is larger than LOGSIZE: with a smaller one,
      as mkfs makes it, the third operation on an empty list is admitted and can overrun it. */
  lemma AdmitsExactlyIff(L: Layout, d: Disk)
    requires Clean(L, d) && L.nblocks - L.size > LOGSIZE
    ensures AdmitsExactly(L, d) <==> L.size > LOGSIZE
  {
    hide ReachableInBudget, Safe, Clean;
    if L.size > LOGSIZE {
      forall s | ReachableInBudget(L, d, s) && !s.committing
        ensures Admits(|s.lh|, s.outstanding, s.committing) <==> Safe(L, d, s)
      {
        if Admits(|s.lh|, s.outstanding, s.committing) {
          AdmittedIsSafe(L, d, s);
        } else {
          RefusalJustified(L, d, s);
        }
      }
    } else {
      var s := ThirdOverruns(L, d);
      assert Admits(|s.lh|, s.outstanding, s.committing) && !Safe(L, d, s);
    }
  }

  lemma ThirdOverruns(L: Layout, d: Disk) returns (s: Sys)
    requires Clean(L, d) && L.nblocks - L.size > LOGSIZE && L.size <= LOGSIZE
    ensures ReachableInBudget(L, d, s) && !s.committing && s.lh == [] && s.outstanding == 2 && !Safe(L, d, s)
  {
    hide ReachableInBudget, CanOverrun;
    s := SomeRemain(L, d, 0, 2);
    RemainingUnused(L, s, 0, 2);
    UnusedSnoc(s.active, Op(s.next_id, 0));
    Overruns(L, Begun(s), 0);
    assert SameCounters(L, d, s, s);
  }

  /** The two counters do not tell how much of their budgets the running operations have used up, so begin_op also turns
      operations away for which there is room: here two are running, have logged ten and five blocks, and may log
      five more. */
  lemma RefusesThoughSafe(L: Layout, d: Disk) returns (s: Sys)
    requires Clean(L, d) && L.nblocks - L.size > LOGSIZE && L.size > LOGSIZE
    ensures ReachableInBudget(L, d, s) && !s.committing && !Admits(|s.lh|, s.outstanding, s.committing)
    ensures |s.lh| == 15 && s.outstanding == 2 && !CanOverrun(L, Begun(s))
  {
    hide ReachableInBudget, CanOverrun, Clean, HomeBlock;
    var t := FillLog(L, d, 15);
    var a := t.active;
    s := t.(outstanding := 2, active := a[..2] + a[3..]);
    assert EndStep(t, s, 2);
    ExtendInBudget(L, d, t, s);
    UnusedSnoc([], a[0]);
    UnusedSnoc([a[0]], a[1]);
    UnusedSnoc([a[0]] + [a[1]], Op(s.next_id, 0));
    assert Unused([]) == 0 && [] + [a[0]] == [a[0]] && s.active == [a[0]] + [a[1]];
    ReservedCannotOverrun(L, Begun(s));
  }
}
