/** Group commit (log.c): many operations interleave begin_op, log_write and end_op, the last one commits, and a crash
    may strike between any two disk writes.  The machine takes the commit's writes one at a time; log_refinement.dfy
    shows that class Log takes its steps. */
module LogGroup {
  import opened LogDisk
  import opened Log

  /** A block update by an operation. */
  datatype Update = Update(op: nat, b: nat, v: Block)

  /** An operation between begin_op and end_op, with the number of blocks it has appended to the log. */
  datatype Op = Op(id: nat, used: nat)

  /** base and done describe a commit in progress: the image it started from and how many of its writes are out.
      groups are the committed groups of updates so far, current the updates since the last commit. */
  datatype Sys = Sys(
    lh: seq<nat>, outstanding: int, committing: bool, cache: map<nat, Block>, disk: Disk,
    base: Disk, done: nat,
    active: seq<Op>, next_id: nat, groups: seq<seq<Update>>, current: seq<Update>)

  // ---- what updates mean -------------------------------------------------------------------------------

  function Apply(d: Disk, us: seq<Update>): (e: Disk)
    ensures |e| == |d|
  {
    if us == [] then d
    else
      var e := Apply(d, us[..|us| - 1]);
      var u := us[|us| - 1];
      if u.b < |e| then e[u.b := u.v] else e
  }

  /** The contents after the first k groups. */
  function ApplyGroups(d: Disk, groups: seq<seq<Update>>): (e: Disk)
    ensures |e| == |d|
  {
    if groups == [] then d else Apply(ApplyGroups(d, groups[..|groups| - 1]), groups[|groups| - 1])
  }

  // ---- steps -------------------------------------------------------------------------------------------

  ghost predicate Init(L: Layout, d: Disk, s: Sys) {
    Clean(L, d) && s == Sys([], 0, false, map[], d, d, 0, [], 0, [], [])
  }

  /** begin_op admits a new operation. */
  ghost predicate BeginStep(s: Sys, s': Sys) {
    && Admits(|s.lh|, s.outstanding, s.committing)
    && s' == s.(outstanding := s.outstanding + 1, active := s.active + [Op(s.next_id, 0)], next_id := s.next_id + 1)
  }

  function AfterWrite(s: Sys, i: nat, b: nat, v: Block): Sys
    requires i < |s.active|
  {
    s.(lh := Absorb(s.lh, b), cache := s.cache[b := v],
       current := s.current + [Update(s.active[i].id, b, v)],
       active := s.active[i := Op(s.active[i].id, s.active[i].used + if b in s.lh then 0 else 1)])
  }

  /** log_write by operation i does not panic and records the block; nothing limits how much one operation logs. */
  ghost predicate WriteStep(L: Layout, s: Sys, s': Sys, i: nat, b: nat, v: Block) {
    && i < |s.active| && L.Home(b) && !Full(L, |s.lh|) && s.outstanding >= 1
    && s' == AfterWrite(s, i, b, v)
  }

  /** end_op does not panic; the last operation starts the commit. */
  ghost predicate EndStep(s: Sys, s': Sys, i: nat) {
    && i < |s.active| && !s.committing
    && var left := s.(outstanding := s.outstanding - 1, active := s.active[..i] + s.active[i + 1..]);
       s' == if left.outstanding == 0 then left.(committing := true, base := s.disk, done := 0) else left
  }

  ghost predicate Committing(L: Layout, s: Sys) {
    s.committing && L.Valid() && |s.base| == L.nblocks && CacheFor(L, s.lh, s.cache)
  }

  /** The commit's next bwrite. */
  ghost predicate DiskStep(L: Layout, s: Sys, s': Sys) {
    && Committing(L, s) && s.done < |CommitTrace(L, s.base, s.lh, s.cache)|
    && s' == s.(disk := CommitTrace(L, s.base, s.lh, s.cache)[s.done], done := s.done + 1)
  }

  /** commit returns and the flag is cleared. */
  ghost predicate FinishStep(L: Layout, s: Sys, s': Sys) {
    && Committing(L, s) && s.done == |CommitTrace(L, s.base, s.lh, s.cache)|
    && s' == s.(committing := false, lh := [], cache := map[], groups := s.groups + [s.current], current := [])
  }

  ghost predicate Next(L: Layout, s: Sys, s': Sys) {
    || BeginStep(s, s')
    || (exists i: nat, b: nat, v: Block :: WriteStep(L, s, s', i, b, v))
    || (exists i: nat :: EndStep(s, s', i))
    || DiskStep(L, s, s')
    || FinishStep(L, s, s')
  }

  ghost predicate Run(L: Layout, d: Disk, run: seq<Sys>) {
    && |run| > 0 && Init(L, d, run[0])
    && forall k :: 0 <= k < |run| - 1 ==> Next(L, run[k], run[k + 1])
  }

  // ---- invariant ---------------------------------------------------------------------------------------

  ghost predicate Counted(s: Sys) {
    s.outstanding == |s.active|
  }

  /** The image the cached updates go on top of. */
  function Ground(s: Sys): Disk {
    if s.committing then s.base else s.disk
  }

  /** Committed groups are on disk, current updates are in the cache, and a commit runs alone. */
  ghost predicate Contents(L: Layout, d: Disk, s: Sys) {
    && CacheFor(L, s.lh, s.cache)
    && Clean(L, Ground(s)) && |d| == L.nblocks
    && SameHome(L, Ground(s), ApplyGroups(d, s.groups))
    && SameHome(L, Overlay(Ground(s), s.cache), Apply(ApplyGroups(d, s.groups), s.current))
    && (s.committing ==>
          && s.active == []
          && s.done <= |CommitTrace(L, s.base, s.lh, s.cache)|
          && s.disk == if s.done == 0 then s.base else CommitTrace(L, s.base, s.lh, s.cache)[s.done - 1])
  }

  /** All groups, the unfinished one last. */
  function AllGroups(s: Sys): seq<seq<Update>> {
    s.groups + [s.current]
  }

  /** No operation's updates are spread over two groups, and a running operation is only in the last. */
  ghost predicate Whole(s: Sys) {
    && (forall i, k :: 0 <= i < |AllGroups(s)| && 0 <= k < |AllGroups(s)[i]| ==> AllGroups(s)[i][k].op < s.next_id)
    && (forall i, j, k, l :: 0 <= i < j < |AllGroups(s)| && 0 <= k < |AllGroups(s)[i]| && 0 <= l < |AllGroups(s)[j]| ==>
          AllGroups(s)[i][k].op != AllGroups(s)[j][l].op)
    && (forall a, i, k :: 0 <= a < |s.active| && 0 <= i < |s.groups| && 0 <= k < |s.groups[i]| ==>
          s.active[a].id != s.groups[i][k].op)
    && (forall a :: 0 <= a < |s.active| ==> s.active[a].id < s.next_id)
  }

  ghost predicate Inv(L: Layout, d: Disk, s: Sys) {
    L.Valid() && Counted(s) && Contents(L, d, s) && Whole(s)
  }

  // ---- contents ----------------------------------------------------------------------------------------

  lemma SameHomeTrans(L: Layout, a: Disk, b: Disk, c: Disk)
    requires SameHome(L, a, b) && SameHome(L, b, c)
    ensures SameHome(L, a, c)
  {
  }

  lemma ApplySnoc(d: Disk, us: seq<Update>, u: Update)
    requires u.b < |d|
    ensures Apply(d, us + [u]) == Apply(d, us)[u.b := u.v]
  {
    assert (us + [u])[..|us|] == us;
  }

  lemma GroupsSnoc(d: Disk, groups: seq<seq<Update>>, g: seq<Update>)
    ensures ApplyGroups(d, groups + [g]) == Apply(ApplyGroups(d, groups), g)
  {
    assert (groups + [g])[..|groups|] == groups;
  }

  lemma AbsorbKeepsList(L: Layout, lh: seq<nat>, cache: map<nat, Block>, b: nat, v: Block)
    requires CacheFor(L, lh, cache) && L.Home(b) && !Full(L, |lh|)
    ensures CacheFor(L, Absorb(lh, b), cache[b := v])
  {
  }

  lemma WriteKeepsContents(L: Layout, d: Disk, s: Sys, i: nat, b: nat, v: Block)
    requires L.Valid() && Contents(L, d, s) && i < |s.active| && L.Home(b) && !Full(L, |s.lh|)
    ensures Contents(L, d, AfterWrite(s, i, b, v))
  {
    AbsorbKeepsList(L, s.lh, s.cache, b, v);
    ApplySnoc(ApplyGroups(d, s.groups), s.current, Update(s.active[i].id, b, v));
  }

  /** When the commit has written everything the disk is what the cached updates stood for. */
  lemma FinishedDisk(L: Layout, d: Disk, s: Sys, s': Sys)
    requires L.Valid() && Contents(L, d, s) && FinishStep(L, s, s')
    ensures Clean(L, s'.disk) && SameHome(L, s'.disk, Overlay(s.base, s.cache))
  {
    if s.lh == [] {
      assert Overlay(s.base, s.cache) == s.base;
    } else {
      hide CommitTrace;
      CommitDone(L, s.base, s.lh, s.cache);
    }
  }

  lemma NothingCached(d: Disk)
    ensures Overlay(d, map[]) == d && Apply(d, []) == d
  {
  }

  lemma FinishKeepsContents(L: Layout, d: Disk, s: Sys, s': Sys)
    requires L.Valid() && Contents(L, d, s) && FinishStep(L, s, s')
    ensures Contents(L, d, s')
  {
    GroupsSnoc(d, s.groups, s.current);
    FinishedDisk(L, d, s, s');
    NothingCached(s'.disk);
    NothingCached(ApplyGroups(d, s'.groups));
    hide CommitTrace, SameHome, Overlay, Apply, ApplyGroups, Clean;
    SameHomeTrans(L, s'.disk, Overlay(s.base, s.cache), ApplyGroups(d, s'.groups));
  }

  lemma ContentsKept(L: Layout, d: Disk, s: Sys, s': Sys)
    requires L.Valid() && Counted(s) && Contents(L, d, s) && Next(L, s, s')
    ensures Contents(L, d, s')
  {
    hide CommitTrace, SameHome;
    if i: nat, b: nat, v: Block :| WriteStep(L, s, s', i, b, v) {
      WriteKeepsContents(L, d, s, i, b, v);
    } else if i: nat :| EndStep(s, s', i) {
    } else if FinishStep(L, s, s') {
      FinishKeepsContents(L, d, s, s');
    }
  }

  // ---- operations stay whole ------------------------------------------------------------------------------

  lemma WriteKeepsWhole(s: Sys, i: nat, b: nat, v: Block)
    requires Whole(s) && i < |s.active|
    ensures Whole(AfterWrite(s, i, b, v))
  {
    var s' := AfterWrite(s, i, b, v);
    var n := |s.groups|;
    forall j, k, l | 0 <= j < n && 0 <= k < |s.groups[j]| && 0 <= l < |s'.current|
      ensures s.groups[j][k].op != s'.current[l].op
    {
      assert AllGroups(s)[j] == s.groups[j] && AllGroups(s)[n] == s.current;
    }
    forall j, k, l, m | 0 <= j < m < n && 0 <= k < |s.groups[j]| && 0 <= l < |s.groups[m]|
      ensures s.groups[j][k].op != s.groups[m][l].op
    {
      assert AllGroups(s)[j] == s.groups[j] && AllGroups(s)[m] == s.groups[m];
    }
    forall j, k | 0 <= j < |AllGroups(s')| && 0 <= k < |AllGroups(s')[j]|
      ensures AllGroups(s')[j][k].op < s'.next_id
    {
      if j < n {
        assert AllGroups(s)[j] == s.groups[j];
      } else {
        assert AllGroups(s)[n] == s.current;
      }
    }
  }

  lemma FinishKeepsWhole(L: Layout, s: Sys, s': Sys)
    requires Whole(s) && s.active == [] && FinishStep(L, s, s')
    ensures Whole(s')
  {
    assert s'.groups == AllGroups(s);
    forall i, j, k, l | 0 <= i < j < |AllGroups(s')| && 0 <= k < |AllGroups(s')[i]| && 0 <= l < |AllGroups(s')[j]|
      ensures AllGroups(s')[i][k].op != AllGroups(s')[j][l].op
    {
      assert j < |s'.groups|;
    }
  }

  lemma BeginKeepsWhole(s: Sys, s': Sys)
    requires Whole(s) && BeginStep(s, s')
    ensures Whole(s')
  {
    assert AllGroups(s') == AllGroups(s);
    forall a, i, k | 0 <= a < |s'.active| && 0 <= i < |s'.groups| && 0 <= k < |s'.groups[i]|
      ensures s'.active[a].id != s'.groups[i][k].op
    {
      assert AllGroups(s)[i] == s.groups[i];
    }
  }

  lemma EndKeepsWhole(s: Sys, s': Sys, i: nat)
    requires Whole(s) && EndStep(s, s', i)
    ensures Whole(s')
  {
    assert AllGroups(s') == AllGroups(s);
  }

  lemma WholeKept(L: Layout, s: Sys, s': Sys)
    requires Whole(s) && (s.committing ==> s.active == []) && Next(L, s, s')
    ensures Whole(s')
  {
    hide CommitTrace, BeginStep, EndStep;
    if BeginStep(s, s') {
      BeginKeepsWhole(s, s');
    } else if i: nat, b: nat, v: Block :| WriteStep(L, s, s', i, b, v) {
      WriteKeepsWhole(s, i, b, v);
    } else if i: nat :| EndStep(s, s', i) {
      EndKeepsWhole(s, s', i);
    } else if FinishStep(L, s, s') {
      FinishKeepsWhole(L, s, s');
    } else {
      assert AllGroups(s') == AllGroups(s);
    }
  }

  // ---- every run ---------------------------------------------------------------------------------------

  lemma InitInv(L: Layout, d: Disk, s: Sys)
    requires Init(L, d, s)
    ensures Inv(L, d, s)
  {
    assert Overlay(d, map[]) == d;
  }

  lemma CountedKept(L: Layout, d: Disk, s: Sys, s': Sys)
    requires Counted(s) && Contents(L, d, s) && Next(L, s, s')
    ensures Counted(s') && (s.committing ==> s.active == [])
  {
    hide CommitTrace, Full, Admits, Clean, SameHome;
  }

  lemma InvKept(L: Layout, d: Disk, s: Sys, s': Sys)
    requires Inv(L, d, s) && Next(L, s, s')
    ensures Inv(L, d, s')
  {
    hide Next, Whole, Contents, SameHome, CommitTrace;
    CountedKept(L, d, s, s');
    ContentsKept(L, d, s, s');
    WholeKept(L, s, s');
  }

  lemma {:induction false} RunInv(L: Layout, d: Disk, run: seq<Sys>)
    requires Run(L, d, run)
    ensures Inv(L, d, run[|run| - 1])
  {
    hide Next, Inv;
    var n := |run| - 1;
    if n == 0 {
      InitInv(L, d, run[0]);
    } else {
      RunInv(L, d, run[..n]);
      InvKept(L, d, run[n - 1], run[n]);
    }
  }

  ghost predicate Reachable(L: Layout, d: Disk, s: Sys) {
    exists run :: Run(L, d, run) && run[|run| - 1] == s
  }

  lemma ReachableInv(L: Layout, d: Disk, s: Sys)
    requires Reachable(L, d, s)
    ensures Inv(L, d, s)
  {
    var run :| Run(L, d, run) && run[|run| - 1] == s;
    RunInv(L, d, run);
  }

  /** While a commit runs no operation is outstanding, so the panic in end_op cannot be hit. */
  lemma CommitRunsAlone(L: Layout, d: Disk, s: Sys)
    requires Reachable(L, d, s)
    ensures s.outstanding == |s.active|
    ensures s.committing ==> s.outstanding == 0
    ensures |s.active| > 0 ==> !s.committing
  {
    ReachableInv(L, d, s);
  }

  /** One recovery after a crash at this state. */
  lemma CrashImage(L: Layout, d: Disk, s: Sys)
    requires L.Valid() && Contents(L, d, s)
    ensures HeadOk(L, s.disk)
    ensures || SameHome(L, Recover(L, s.disk), ApplyGroups(d, s.groups))
            || (s.committing && SameHome(L, Recover(L, s.disk), ApplyGroups(d, AllGroups(s))))
  {
    GroupsSnoc(d, s.groups, s.current);
    var old_image, new_image := ApplyGroups(d, s.groups), Apply(ApplyGroups(d, s.groups), s.current);
    hide Recover, CommitTrace, ApplyGroups, Apply, Overlay, SameHome;
    if s.committing && s.done > 0 {
      CommitCrash(L, s.base, s.lh, s.cache, s.done - 1);
      if s.done - 1 < |s.lh| {
        SameHomeTrans(L, Recover(L, s.disk), s.base, old_image);
      } else {
        SameHomeTrans(L, Recover(L, s.disk), Overlay(s.base, s.cache), new_image);
      }
    } else {
      CleanRecovers(L, s.disk);
      SameHomeTrans(L, Recover(L, s.disk), s.disk, old_image);
    }
  }

  /** Group commit is crash safe: whenever the machine stops, and however often recovery is itself cut short, the
      recovered disk holds the effect of all committed groups, or of those and the group being committed; no group is
      there in part. */
  lemma GroupsSurviveCrashes(L: Layout, d: Disk, s: Sys, boots: seq<Disk>)
    requires Reachable(L, d, s) && CrashChain(L, boots) && boots[0] == s.disk
    ensures HeadOk(L, boots[|boots| - 1])
    ensures var r := Recover(L, boots[|boots| - 1]);
            || SameHome(L, r, ApplyGroups(d, s.groups))
            || (s.committing && SameHome(L, r, ApplyGroups(d, AllGroups(s))))
  {
    ReachableInv(L, d, s);
    CrashImage(L, d, s);
    CrashChainHarmless(L, boots);
    hide Recover, Contents, Whole, Reachable, ApplyGroups, SameHome, AllGroups;
    var r := Recover(L, boots[|boots| - 1]);
    if SameHome(L, Recover(L, s.disk), ApplyGroups(d, s.groups)) {
      SameHomeTrans(L, r, Recover(L, s.disk), ApplyGroups(d, s.groups));
    } else {
      SameHomeTrans(L, r, Recover(L, s.disk), ApplyGroups(d, AllGroups(s)));
    }
  }

  /** An operation's updates lie in one group, so a surviving prefix of groups holds all of them or none. */
  lemma OperationsAreWhole(L: Layout, d: Disk, s: Sys, i: nat, k: nat, j: nat, l: nat)
    requires Reachable(L, d, s)
    requires i < |AllGroups(s)| && k < |AllGroups(s)[i]| && j < |AllGroups(s)| && l < |AllGroups(s)[j]|
    ensures AllGroups(s)[i][k].op == AllGroups(s)[j][l].op ==> i == j
  {
    ReachableInv(L, d, s);
  }

  lemma Extend(L: Layout, d: Disk, s: Sys, s': Sys)
    requires Reachable(L, d, s) && Next(L, s, s')
    ensures Reachable(L, d, s')
  {
    hide Next;
    var run :| Run(L, d, run) && run[|run| - 1] == s;
    var run' := run + [s'];
    forall k | 0 <= k < |run'| - 1
      ensures Next(L, run'[k], run'[k + 1])
    {
      if k < |run| - 1 { assert Next(L, run[k], run[k + 1]); }
    }
    assert Run(L, d, run');
  }

  // ---- one boot after another ----------------------------------------------------------------------------

  lemma {:induction false} ApplySameHome(L: Layout, d: Disk, e: Disk, us: seq<Update>)
    requires SameHome(L, d, e)
    ensures SameHome(L, Apply(d, us), Apply(e, us))
  {
    if us != [] {
      ApplySameHome(L, d, e, us[..|us| - 1]);
    }
  }

  lemma {:induction false} ApplyGroupsSameHome(L: Layout, d: Disk, e: Disk, groups: seq<seq<Update>>)
    requires SameHome(L, d, e)
    ensures SameHome(L, ApplyGroups(d, groups), ApplyGroups(e, groups))
  {
    if groups != [] {
      hide SameHome, Apply;
      ApplyGroupsSameHome(L, d, e, groups[..|groups| - 1]);
      ApplySameHome(L, ApplyGroups(d, groups[..|groups| - 1]), ApplyGroups(e, groups[..|groups| - 1]),
                    groups[|groups| - 1]);
    }
  }

  lemma {:induction false} ApplyGroupsAppend(d: Disk, groups: seq<seq<Update>>, more: seq<seq<Update>>)
    ensures ApplyGroups(d, groups + more) == ApplyGroups(ApplyGroups(d, groups), more)
  {
    if more == [] {
      assert groups + more == groups;
    } else {
      var m := more[..|more| - 1];
      assert groups + more == (groups + m) + [more[|more| - 1]];
      GroupsSnoc(d, groups + m, more[|more| - 1]);
      ApplyGroupsAppend(d, groups, m);
    }
  }

  /** The machine ran to state last and crashed; recoveries that started from boots crashed too, but for the last one,
      which left recovered. */
  datatype Epoch = Epoch(last: Sys, boots: seq<Disk>, recovered: Disk)

  ghost predicate EpochOk(L: Layout, d: Disk, e: Epoch) {
    && Reachable(L, d, e.last) && CrashChain(L, e.boots) && e.boots[0] == e.last.disk
    && HeadOk(L, e.boots[|e.boots| - 1]) && e.recovered == Recover(L, e.boots[|e.boots| - 1])
  }

  function StartOf(d: Disk, es: seq<Epoch>): Disk {
    if es == [] then d else es[|es| - 1].recovered
  }

  /** Each epoch runs on the disk the one before it left. */
  ghost predicate Epochs(L: Layout, d: Disk, es: seq<Epoch>) {
    forall k: nat :: k < |es| ==> EpochOk(L, StartOf(d, es[..k]), es[k])
  }

  /** What of an epoch may survive it. */
  predicate Survives(e: Epoch, kept: seq<seq<Update>>) {
    kept == e.last.groups || (e.last.committing && kept == AllGroups(e.last))
  }

  lemma RecoveredClean(L: Layout, d: Disk)
    requires HeadOk(L, d)
    ensures Clean(L, Recover(L, d))
  {
    RecoverIdempotent(L, d);
    assert |DecodeHead(Recover(L, d)[L.start])| == 0;
  }

  lemma EpochSurvives(L: Layout, d: Disk, e: Epoch) returns (kept: seq<seq<Update>>)
    requires EpochOk(L, d, e)
    ensures Survives(e, kept) && Clean(L, e.recovered) && SameHome(L, e.recovered, ApplyGroups(d, kept))
  {
    hide Reachable, Recover, ApplyGroups, SameHome, Clean, HeadOk;
    GroupsSurviveCrashes(L, d, e.last, e.boots);
    RecoveredClean(L, e.boots[|e.boots| - 1]);
    kept := if SameHome(L, e.recovered, ApplyGroups(d, e.last.groups)) then e.last.groups else AllGroups(e.last);
  }

  /** Over any number of boots, each ended by a crash and crashing recoveries: the disk holds, epoch after epoch, all
      committed groups and possibly the one that was being committed, and nothing else. */
  lemma {:induction false} EpochsSurvive(L: Layout, d: Disk, es: seq<Epoch>) returns (kept: seq<seq<seq<Update>>>)
    requires Clean(L, d) && Epochs(L, d, es)
    ensures |kept| == |es| && forall k :: 0 <= k < |es| ==> Survives(es[k], kept[k])
    ensures Clean(L, StartOf(d, es)) && SameHome(L, StartOf(d, es), ApplyGroups(d, Flat(kept)))
  {
    hide Epochs, EpochOk, Clean, SameHome, ApplyGroups;
    if es == [] {
      kept := [];
      Itself(L, d);
    } else {
      var n := |es| - 1;
      var before := es[..n];
      EpochsPrefix(L, d, es);
      var kept0 := EpochsSurvive(L, d, before);
      var last := EpochSurvives(L, StartOf(d, before), es[n]);
      kept := kept0 + [last];
      assert kept[..n] == kept0;
      OneEpochMore(L, d, StartOf(d, before), es[n].recovered, Flat(kept0), last);
    }
  }

  lemma EpochsPrefix(L: Layout, d: Disk, es: seq<Epoch>)
    requires Epochs(L, d, es) && es != []
    ensures Epochs(L, d, es[..|es| - 1]) && EpochOk(L, StartOf(d, es[..|es| - 1]), es[|es| - 1])
  {
    hide EpochOk, StartOf;
    var before := es[..|es| - 1];
    forall k: nat | k < |before|
      ensures EpochOk(L, StartOf(d, before[..k]), before[k])
    {
      assert es[..k] == before[..k] && es[k] == before[k];
    }
  }

  lemma Itself(L: Layout, d: Disk)
    ensures SameHome(L, d, ApplyGroups(d, []))
  {
  }

  lemma OneEpochMore(L: Layout, d: Disk, start: Disk, end: Disk, groups: seq<seq<Update>>, more: seq<seq<Update>>)
    requires SameHome(L, start, ApplyGroups(d, groups)) && SameHome(L, end, ApplyGroups(start, more))
    ensures SameHome(L, end, ApplyGroups(d, groups + more))
  {
    hide SameHome, ApplyGroups;
    ApplyGroupsSameHome(L, start, ApplyGroups(d, groups), more);
    ApplyGroupsAppend(d, groups, more);
    SameHomeTrans(L, end, ApplyGroups(start, more), ApplyGroups(d, groups + more));
  }

  function Flat(kept: seq<seq<seq<Update>>>): seq<seq<Update>> {
    if kept == [] then [] else Flat(kept[..|kept| - 1]) + kept[|kept| - 1]
  }
}
