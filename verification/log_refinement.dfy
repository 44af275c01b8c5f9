/** Class Log takes the steps of the group commit machine: whatever calls are made, its state is a reachable one, and so
    is every image its disk goes through, in the middle of a commit too. */
module LogRefinement {
  import opened LogDisk
  import opened Log
  import opened LogGroup
  import opened LogBudget

  /** Calls as operations make them; operation i is the i-th of those running. */
  datatype Call = Begin | Write(i: nat, b: nat, data: Block) | End(i: nat)

  /** Between calls the machine state s describes the log. */
  ghost predicate Represents(log: Log, s: Sys)
    reads log, log.lh_block, log.disk.blocks
  {
    && log.Valid() && s.lh == log.Lh() && s.outstanding == log.outstanding && s.cache == log.cache
    && s.disk == log.disk.blocks[..] && !s.committing && !log.committing
  }

  /** Reachable, and if budgeted by operations within their budgets. */
  ghost predicate ReachableIn(budgeted: bool, L: Layout, d: Disk, s: Sys) {
    Reachable(L, d, s) && (budgeted ==> ReachableInBudget(L, d, s))
  }

  lemma ExtendIn(budgeted: bool, L: Layout, d: Disk, s: Sys, s': Sys)
    requires ReachableIn(budgeted, L, d, s) && Next(L, s, s') && (budgeted ==> NextInBudget(L, s, s'))
    ensures ReachableIn(budgeted, L, d, s')
  {
    hide Reachable, ReachableInBudget, Next, NextInBudget;
    Extend(L, d, s, s');
    if budgeted {
      ExtendInBudget(L, d, s, s');
    }
  }

  /** A crash may leave this image. */
  ghost predicate Shown(L: Layout, d: Disk, image: Disk) {
    exists s :: Reachable(L, d, s) && s.disk == image
  }

  ghost predicate AllShown(L: Layout, d: Disk, images: seq<Disk>) {
    forall t :: 0 <= t < |images| ==> Shown(L, d, images[t])
  }

  /** The commit that starts in s after p of its writes. */
  ghost function After(L: Layout, s: Sys, p: nat): Sys
    requires L.Valid() && |s.base| == L.nblocks && CacheFor(L, s.lh, s.cache)
             && p <= |CommitTrace(L, s.base, s.lh, s.cache)|
  {
    if p == 0 then s else s.(disk := CommitTrace(L, s.base, s.lh, s.cache)[p - 1], done := p)
  }

  lemma CommittingFacts(L: Layout, d: Disk, s: Sys)
    requires Reachable(L, d, s) && s.committing
    ensures Committing(L, s)
  {
    ReachableInv(L, d, s);
    hide CommitTrace, SameHome, Overlay;
  }

  /** Every write of a commit is a step of the machine. */
  lemma {:induction false} CommitReached(w: bool, L: Layout, d: Disk, s: Sys, p: nat)
    requires ReachableIn(w, L, d, s) && s.done == 0 && Committing(L, s) && p <= |CommitTrace(L, s.base, s.lh, s.cache)|
    ensures ReachableIn(w, L, d, After(L, s, p))
  {
    hide CommitTrace, ReachableIn, Next, NextInBudget;
    if p > 0 {
      CommitReached(w, L, d, s, p - 1);
      OneWrite(L, s, p - 1);
      ExtendIn(w, L, d, After(L, s, p - 1), After(L, s, p));
    }
  }

  lemma OneWrite(L: Layout, s: Sys, p: nat)
    requires s.done == 0 && Committing(L, s) && p < |CommitTrace(L, s.base, s.lh, s.cache)|
    ensures Next(L, After(L, s, p), After(L, s, p + 1)) && NextInBudget(L, After(L, s, p), After(L, s, p + 1))
  {
    hide CommitTrace, CacheFor;
    assert DiskStep(L, After(L, s, p), After(L, s, p + 1));
  }

  ghost function Finished(L: Layout, s: Sys): Sys
    requires Committing(L, s)
  {
    After(L, s, |CommitTrace(L, s.base, s.lh, s.cache)|).(committing := false, lh := [], cache := map[],
                                                          groups := s.groups + [s.current], current := [])
  }

  /** A whole commit in steps of the machine. */
  lemma WholeCommit(w: bool, L: Layout, d: Disk, s: Sys)
    requires ReachableIn(w, L, d, s) && s.done == 0 && Committing(L, s)
    ensures AllShown(L, d, CommitTrace(L, s.base, s.lh, s.cache)) && ReachableIn(w, L, d, Finished(L, s))
  {
    hide CommitTrace, Reachable, CacheFor;
    var trace := CommitTrace(L, s.base, s.lh, s.cache);
    forall t | 0 <= t < |trace|
      ensures Shown(L, d, trace[t])
    {
      CommitReached(w, L, d, s, t + 1);
      assert After(L, s, t + 1).disk == trace[t];
    }
    CommitReached(w, L, d, s, |trace|);
    assert FinishStep(L, After(L, s, |trace|), Finished(L, s));
    ExtendIn(w, L, d, After(L, s, |trace|), Finished(L, s));
  }

  /** The machine state when operation i leaves. */
  function Ended(s: Sys, i: nat): Sys
    requires i < |s.active|
  {
    var left := s.(outstanding := s.outstanding - 1, active := s.active[..i] + s.active[i + 1..]);
    if left.outstanding == 0 then left.(committing := true, base := s.disk, done := 0) else left
  }

  /** The write of a running operation is within its budget. */
  ghost predicate Fits(L: Layout, s: Sys, call: Call) {
    call.Write? && call.i < |s.active| && L.Home(call.b) ==> InBudget(s, call.i, call.b)
  }

  ghost predicate AllFit(L: Layout, h: seq<Sys>, calls: seq<Call>) {
    forall k :: 0 <= k < |h| && k < |calls| ==> Fits(L, h[k], calls[k])
  }

  /** What a call that does not panic does to the machine.  begin_op may sleep; the others are made by a running
      operation. */
  ghost predicate Moved(L: Layout, s: Sys, s': Sys, call: Call) {
    match call
    case Begin => if Admits(|s.lh|, s.outstanding, false) then BeginStep(s, s') else s' == s
    case Write(i, b, data) => if i < |s.active| && L.Home(b) then WriteStep(L, s, s', i, b, data) else s' == s
    case End(i) =>
      if i < |s.active| then
        && EndStep(s, Ended(s, i), i)
        && if Ended(s, i).committing then Committing(L, Ended(s, i)) && s' == Finished(L, Ended(s, i))
           else s' == Ended(s, i)
      else s' == s
  }

  /** The machine's states between the calls. */
  ghost predicate History(L: Layout, h: seq<Sys>, calls: seq<Call>) {
    0 < |h| <= |calls| + 1 && forall k :: 0 <= k < |h| - 1 ==> Moved(L, h[k], h[k + 1], calls[k])
  }

  /** A refinement of the machine by the log: any calls, until a log_write panics. */
  method Drive(log: Log, calls: seq<Call>) returns (panicked: bool, ghost h: seq<Sys>)
    requires log.Valid() && log.lh_n == 0 && log.outstanding == 0 && !log.committing && log.cache == map[]
    requires Clean(log.L, log.disk.blocks[..])
    modifies log, log.lh_block, log.disk, log.disk.blocks
    ensures History(log.L, h, calls) && Init(log.L, old(log.disk.blocks[..]), h[0])
    ensures !panicked ==> |h| == |calls| + 1
    ensures panicked ==> |h| <= |calls| && calls[|h| - 1].Write? && Full(log.L, |h[|h| - 1].lh|)
    ensures Represents(log, h[|h| - 1])
    ensures ReachableIn(AllFit(log.L, h, calls), log.L, old(log.disk.blocks[..]), h[|h| - 1])
    ensures old(log.disk.trace) <= log.disk.trace
    ensures AllShown(log.L, old(log.disk.blocks[..]), log.disk.trace[|old(log.disk.trace)|..])
  {
    hide ReachableIn, AllShown, Represents, Next, Fits, Moved, Full;
    ghost var d := log.disk.blocks[..];
    h := [Sys([], 0, false, map[], d, d, 0, [], 0, [], [])];
    Starts(log, d, h[0]);
    panicked := false;
    ghost var w := true;
    assert log.disk.trace[|log.disk.trace|..] == [];
    for k := 0 to |calls|
      invariant |h| == k + 1 && History(log.L, h, calls) && Init(log.L, d, h[0])
      invariant w <==> forall j :: 0 <= j < k ==> Fits(log.L, h[j], calls[j])
      invariant ReachableIn(w, log.L, d, h[k]) && Represents(log, h[k])
      invariant old(log.disk.trace) <= log.disk.trace
      invariant AllShown(log.L, d, log.disk.trace[|old(log.disk.trace)|..])
    {
      ghost var trace := log.disk.trace;
      ghost var s;
      panicked, s := Take(log, calls[k], d, w, h[k]);
      MoreShown(log.L, d, old(log.disk.trace), trace, log.disk.trace);
      w := w && Fits(log.L, h[k], calls[k]);
      if panicked {
        return;
      }
      h := h + [s];
    }
  }

  /** begin_op after any such calls within the budgets: the operation gets in exactly if no state that looks the same
      to begin_op lets the operations overrun the log together with it, provided the log is larger than LOGSIZE. */
  method DriveAndBegin(log: Log, calls: seq<Call>) returns (panicked: bool, admitted: bool, ghost h: seq<Sys>)
    requires log.Valid() && log.lh_n == 0 && log.outstanding == 0 && !log.committing && log.cache == map[]
    requires Clean(log.L, log.disk.blocks[..])
    modifies log, log.lh_block, log.disk, log.disk.blocks
    ensures History(log.L, h, calls) && Init(log.L, old(log.disk.blocks[..]), h[0])
    ensures !panicked ==> |h| == |calls| + 1
    ensures !panicked && AllFit(log.L, h, calls) && log.L.size > LOGSIZE && admitted ==>
              Safe(log.L, old(log.disk.blocks[..]), h[|calls|])
    ensures !panicked && AllFit(log.L, h, calls) && log.L.nblocks - log.L.size > LOGSIZE && !admitted ==>
              !Safe(log.L, old(log.disk.blocks[..]), h[|calls|])
    ensures !panicked ==> Represents(log, if admitted then Begun(h[|calls|]) else h[|calls|])
  {
    hide ReachableInBudget, Reachable, Safe, Clean, AllFit, History, Full;
    ghost var d := log.disk.blocks[..];
    panicked, h := Drive(log, calls);
    admitted := false;
    if !panicked {
      admitted := log.BeginOp();
      if AllFit(log.L, h, calls) {
        if admitted && log.L.size > LOGSIZE {
          AdmittedIsSafe(log.L, d, h[|calls|]);
        } else if !admitted && log.L.nblocks - log.L.size > LOGSIZE {
          RefusalJustified(log.L, d, h[|calls|]);
        }
      }
    }
  }

  lemma Starts(log: Log, d: Disk, s: Sys)
    requires log.Valid() && log.lh_n == 0 && log.outstanding == 0 && !log.committing && log.cache == map[]
    requires d == log.disk.blocks[..] && Clean(log.L, d) && s == Sys([], 0, false, map[], d, d, 0, [], 0, [], [])
    ensures ReachableIn(true, log.L, d, s) && Represents(log, s) && AllShown(log.L, d, [])
  {
    assert Run(log.L, d, [s]) && RunInBudget(log.L, d, [s]) && [s][0] == s;
  }

  lemma MoreShown(L: Layout, d: Disk, t0: seq<Disk>, t1: seq<Disk>, t2: seq<Disk>)
    requires t0 <= t1 <= t2 && AllShown(L, d, t1[|t0|..]) && AllShown(L, d, t2[|t1|..])
    ensures AllShown(L, d, t2[|t0|..])
  {
    hide Shown;
    forall t | 0 <= t < |t2| - |t0|
      ensures Shown(L, d, t2[|t0|..][t])
    {
      assert t2[|t0|..][t] == if t < |t1| - |t0| then t1[|t0|..][t] else t2[|t1|..][t + |t0| - |t1|];
    }
  }

  /** One call.  An operation that does not run makes none, and begin_op that sleeps changes nothing. */
  method Take(log: Log, call: Call, ghost d: Disk, ghost w: bool, ghost s: Sys)
    returns (panicked: bool, ghost s': Sys)
    requires ReachableIn(w, log.L, d, s) && Represents(log, s)
    modifies log, log.lh_block, log.disk, log.disk.blocks
    ensures panicked ==> call.Write? && Full(log.L, |s.lh|) && s' == s
    ensures !panicked ==> Moved(log.L, s, s', call)
    ensures ReachableIn(w && Fits(log.L, s, call), log.L, d, s') && Represents(log, s')
    ensures old(log.disk.trace) <= log.disk.trace && AllShown(log.L, d, log.disk.trace[|old(log.disk.trace)|..])
  {
    hide Reachable, ReachableInBudget, CommitTrace;
    panicked, s' := false, s;
    CommitRunsAlone(log.L, d, s);
    match call
    case Begin =>
      var admitted := log.BeginOp();
      if admitted {
        s' := Begun(s);
        assert BeginStep(s, s');
        ExtendIn(w, log.L, d, s, s');
      }
    case Write(i, b, data) =>
      if i < log.outstanding && log.L.Home(b) {
        var r := log.LogWrite(b, data);
        if r != Logged {
          return true, s;
        }
        s' := AfterWrite(s, i, b, data);
        assert WriteStep(log.L, s, s', i, b, data);
        ExtendIn(w && Fits(log.L, s, call), log.L, d, s, s');
      }
    case End(i) =>
      if i < log.outstanding {
        s' := TakeEnd(log, i, d, w, s);
      }
  }

  /** end_op of operation i, and the commit if it is the last; its panic is not hit. */
  method TakeEnd(log: Log, i: nat, ghost d: Disk, ghost w: bool, ghost s: Sys) returns (ghost s': Sys)
    requires ReachableIn(w, log.L, d, s) && Represents(log, s) && i < |s.active| == log.outstanding
    modifies log, log.lh_block, log.disk, log.disk.blocks
    ensures ReachableIn(w, log.L, d, s') && Represents(log, s') && Moved(log.L, s, s', End(i))
    ensures old(log.disk.trace) <= log.disk.trace && AllShown(log.L, d, log.disk.trace[|old(log.disk.trace)|..])
  {
    hide Reachable, ReachableInBudget, CommitTrace;
    s' := Ended(s, i);
    assert EndStep(s, s', i);
    ExtendIn(w, log.L, d, s, s');
    var panicked := log.EndOp();
    assert !panicked;
    if log.outstanding == 0 {
      CommittingFacts(log.L, d, s');
      WholeCommit(w, log.L, d, s');
      CommitUnfold(log.L, s'.base, s'.lh, s'.cache);
      assert log.disk.trace[|old(log.disk.trace)|..] == CommitTrace(log.L, s'.base, s'.lh, s'.cache);
      s' := Finished(log.L, s');
    }
  }
}
