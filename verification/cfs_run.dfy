/** Whole runs of the fair scheduler on one processor: how far virtual runtimes drift apart, through any schedule of
    dispatches, ticks, forks, sleeps, exits, wakeups and kills. */
module CfsRun {
  import opened CfsState
  import opened Cfs

  datatype Step =
    | Resume(start: nat) | Ticks | Forks(copied: bool) | Renices(pid: nat, nice: int) | Sleeps(chan: nat) | Exits
    | Reaps(p: nat) | Wakeups(chan: nat) | Kills(pid: nat)

  /** The process table, and the running process or -1. */
  datatype View = View(ps: seq<Proc>, current: int)

  /** On this table the step wakes nobody, or only under the exact condition for the bound to survive. */
  ghost predicate Keeps(v: View, step: Step) {
    match step
    case Wakeups(chan) => WakeupKeeps(v.ps, chan, Reach)
    case Kills(pid) => forall p: nat :: p < |v.ps| && FirstOf(v.ps, p, pid) ==> KillKeeps(v.ps, p)
    case Ticks =>
      0 <= v.current < |v.ps| && HasVruntime(v.ps[v.current]) ==> WakeupKeeps(Charged(v.ps, v.current), TICKS, Reach)
    case _ => true
  }

  ghost predicate AllWithin(h: seq<View>, n: nat) {
    forall k :: 0 <= k <= n && k < |h| ==> Within(h[k].ps, Reach)
  }

  ghost predicate AllKeep(h: seq<View>, steps: seq<Step>, n: nat) {
    forall k :: 0 <= k < n && k < |h| && k < |steps| ==> Keeps(h[k], steps[k])
  }

  /** All that compete move by the same amount, and the running process by its charge besides. */
  ghost predicate Shifted(v: View, v': View, step: Step, shift: int) {
    && |v'.ps| == |v.ps|
    && forall j: nat :: j < |v.ps| && Competing(v.ps[j]) && Competing(v'.ps[j]) ==>
         v'.ps[j].vruntime
         == v.ps[j].vruntime + shift + if step.Ticks? && j == v.current then Delta(v.ps[j].priority) else 0
  }

  ghost predicate Moves(v: View, v': View, step: Step) {
    exists shift: int :: Shifted(v, v', step, shift)
  }

  /** Nothing is lost to saturation when everybody is moved down, because all are near the greatest. */
  lemma ChargedMoves(v: View, v': View, ps: seq<Proc>)
    requires 0 <= v.current < |v.ps| && Competing(v.ps[v.current]) && Within(v.ps, Reach)
    requires AllWoken(Charged(v.ps, v.current), ps, TICKS) && |ps| == |v.ps|
    requires v'.ps == ps[v.current := Preempted(ps[v.current])]
    ensures Moves(v, v', Ticks)
  {
    hide WokenOk;
    var me := v.current;
    var shift := if v.ps[me].vruntime + Delta(v.ps[me].priority) > MAXIMUM_INT then -RESCALE else 0;
    forall j: nat | j < |v.ps| && Competing(v.ps[j])
      ensures v'.ps[j].vruntime
              == v.ps[j].vruntime + shift + if j == me then Delta(v.ps[j].priority) else 0
    {
      assert Reach(v.ps[me]) - v.ps[j].vruntime <= SPREAD;
      CompetitorStays(Charged(v.ps, me), ps, TICKS, j);
    }
    assert Shifted(v, v', Ticks, shift);
  }

  /** The other steps leave the virtual runtimes of whoever competes before and after. */
  lemma OthersMove(v: View, v': View, step: Step)
    requires !step.Ticks? && |v'.ps| == |v.ps|
    requires forall j: nat :: j < |v.ps| && Competing(v.ps[j]) && Competing(v'.ps[j]) ==>
               v'.ps[j].vruntime == v.ps[j].vruntime
    ensures Moves(v, v', step)
  {
    assert Shifted(v, v', step, 0);
  }

  lemma NothingMoves(v: View, v': View, step: Step)
    requires v'.ps == v.ps && (step.Ticks? ==> v.current == -1)
    ensures Moves(v, v', step)
  {
    assert Shifted(v, v', step, 0);
  }

  /** One step, if it is possible.  The bound survives it exactly if the step keeps it. */
  method Take(s: Scheduler, step: Step)
    requires s.Valid()
    modifies s, s.ptable
    ensures s.Valid()
    ensures old(s.Level()) ==> (s.Level() <==> Keeps(old(View(s.ptable[..], s.current)), step))
    ensures old(s.Level()) ==> Moves(old(View(s.ptable[..], s.current)), View(s.ptable[..], s.current), step)
  {
    ghost var v := View(s.ptable[..], s.current);
    hide Within, WakeupKeeps, KillKeeps, Charged, WokenOk;
    hide Shifted, Moves;
    if !step.Ticks? || s.current == -1 {
      NothingMoves(v, v, step);
    }
    match step
    case Ticks =>
      if s.current >= 0 {
        TakeTick(s);
      }
    case Resume(start) =>
      if s.current == -1 && start <= s.ptable.Length {
        var _ := s.Schedule(start);
        OthersMove(v, View(s.ptable[..], s.current), step);
      }
    case Forks(copied) =>
      if s.current >= 0 {
        TakeFork(s, copied);
      }
    case Renices(pid, nice) => TakeRenice(s, pid, nice);
    case Sleeps(chan) =>
      if s.current >= 0 {
        TakeLeave(s, Sleeping, chan, step);
      }
    case Exits =>
      if s.current >= 0 {
        TakeLeave(s, Zombie, 0, step);
      }
    case Reaps(p) =>
      if p < s.ptable.Length && s.ptable[p].state == Zombie {
        s.Reap(p);
        OthersMove(v, View(s.ptable[..], s.current), step);
      }
    case Wakeups(chan) =>
      s.Wakeup1(chan);
      WokenMoves(v, View(s.ptable[..], s.current), chan);
    case Kills(pid) =>
      TakeKill(s, pid);
  }

  method TakeLeave(s: Scheduler, state: State, chan: nat, step: Step)
    requires s.Valid() && s.current >= 0 && (state == Sleeping || state == Zombie) && !step.Ticks?
    modifies s`current, s.ptable
    ensures s.Valid() && (old(s.Level()) ==> s.Level())
    ensures Moves(old(View(s.ptable[..], s.current)), View(s.ptable[..], s.current), step)
  {
    hide Within, Moves, s.Valid;
    ghost var v := View(s.ptable[..], s.current);
    s.Leave(state, chan);
    OthersMove(v, View(s.ptable[..], s.current), step);
  }

  method TakeFork(s: Scheduler, copied: bool)
    requires s.Valid() && s.current >= 0
    modifies s`nextpid, s.ptable
    ensures s.Valid() && (old(s.Level()) ==> s.Level())
    ensures Moves(old(View(s.ptable[..], s.current)), View(s.ptable[..], s.current), Forks(copied))
  {
    hide Within, Moves, s.Valid;
    ghost var v := View(s.ptable[..], s.current);
    var _ := s.Fork(copied);
    OthersMove(v, View(s.ptable[..], s.current), Forks(copied));
  }

  method TakeRenice(s: Scheduler, pid: nat, nice: int)
    requires s.Valid()
    modifies s.ptable
    ensures s.Valid() && (old(s.Level()) ==> s.Level())
    ensures Moves(old(View(s.ptable[..], s.current)), View(s.ptable[..], s.current), Renices(pid, nice))
  {
    hide Within, Moves, s.Valid;
    ghost var v := View(s.ptable[..], s.current);
    var _ := s.SetNice(pid, nice);
    OthersMove(v, View(s.ptable[..], s.current), Renices(pid, nice));
  }

  method TakeKill(s: Scheduler, pid: nat)
    requires s.Valid()
    modifies s.ptable
    ensures s.Valid()
    ensures old(s.Level()) ==> (s.Level() <==> Keeps(old(View(s.ptable[..], s.current)), Kills(pid)))
    ensures Moves(old(View(s.ptable[..], s.current)), View(s.ptable[..], s.current), Kills(pid))
  {
    hide Within, Moves, s.Valid, KillKeeps;
    ghost var v := View(s.ptable[..], s.current);
    var _ := s.Kill(pid);
    OthersMove(v, View(s.ptable[..], s.current), Kills(pid));
  }

  method TakeTick(s: Scheduler)
    requires s.Valid() && s.current >= 0
    modifies s`current, s.ptable
    ensures s.Valid()
    ensures old(s.Level()) ==> (s.Level() <==> Keeps(old(View(s.ptable[..], s.current)), Ticks))
    ensures old(s.Level()) ==> Moves(old(View(s.ptable[..], s.current)), View(s.ptable[..], s.current), Ticks)
  {
    hide Within, WakeupKeeps, Charged, WokenOk, Shifted, Moves, Preempted;
    ghost var v := View(s.ptable[..], s.current);
    s.Tick();
    ghost var ps :| AllWoken(Charged(v.ps, v.current), ps, TICKS)
                    && s.ptable[..] == ps[v.current := Preempted(ps[v.current])];
    if Within(v.ps, Reach) {
      ChargedMoves(v, View(s.ptable[..], s.current), ps);
    }
  }

  lemma WokenMoves(v: View, v': View, chan: nat)
    requires AllWoken(v.ps, v'.ps, chan)
    ensures Moves(v, v', Wakeups(chan))
  {
    hide WokenOk;
    forall j: nat | j < |v.ps| && Competing(v.ps[j])
      ensures v'.ps[j].vruntime == v.ps[j].vruntime
    {
      CompetitorStays(v.ps, v'.ps, chan, j);
    }
    OthersMove(v, v', Wakeups(chan));
  }

  /** Any run, with the table after every step: virtual runtimes of competing processes have stayed within SPREAD of
      each other, across all rescalings, up to some point, exactly if every wakeup, tick and kill before it kept them
      so. */
  method Run(s: Scheduler, steps: seq<Step>) returns (ghost h: seq<View>)
    requires s.Valid() && s.Level()
    modifies s, s.ptable
    ensures s.Valid() && |h| == |steps| + 1
    ensures h[0] == old(View(s.ptable[..], s.current)) && h[|steps|] == View(s.ptable[..], s.current)
    ensures forall n: nat :: n <= |steps| ==> (AllWithin(h, n) <==> AllKeep(h, steps, n))
    ensures Moving(h, steps)
    ensures AllKeep(h, steps, |steps|) ==> forall i, j :: 0 <= i < s.ptable.Length && 0 <= j < s.ptable.Length ==>
              Competing(s.ptable[i]) && Competing(s.ptable[j]) ==> s.ptable[i].vruntime - s.ptable[j].vruntime <= SPREAD
  {
    hide Within, Shape, Keeps, AllWithin, AllKeep, Moves;
    h := [View(s.ptable[..], s.current)];
    Start(s, h, steps);
    for k := 0 to |steps|
      invariant s.Valid() && |h| == k + 1 && h[0] == old(View(s.ptable[..], s.current))
      invariant h[k] == View(s.ptable[..], s.current)
      invariant forall n: nat :: n <= k ==> (AllWithin(h, n) <==> AllKeep(h, steps, n))
      invariant Moving(h, steps[..k])
    {
      Take(s, steps[k]);
      MovingMore(h, View(s.ptable[..], s.current), steps, k);
      OneMore(h, View(s.ptable[..], s.current), steps, k);
      h := h + [View(s.ptable[..], s.current)];
    }
    assert steps[..|steps|] == steps;
    if AllKeep(h, steps, |steps|) {
      LastWithin(h, |steps|);
      FairIsWithin(s.ptable[..], s.current, s.nextpid);
      InTable(s);
    }
  }

  /** As long as the bound holds, every step moves the virtual runtimes as said. */
  ghost predicate Moving(h: seq<View>, steps: seq<Step>) {
    |h| == |steps| + 1 && forall k :: 0 <= k < |steps| && Within(h[k].ps, Reach) ==> Moves(h[k], h[k + 1], steps[k])
  }

  lemma MovingMore(h: seq<View>, v: View, steps: seq<Step>, k: nat)
    requires k < |steps| && Moving(h, steps[..k]) && (Within(h[k].ps, Reach) ==> Moves(h[k], v, steps[k]))
    ensures Moving(h + [v], steps[..k + 1])
  {
    hide Within, Moves;
  }

  // ---- shares of the processor -------------------------------------------------------------------------------------

  /** The process in slot j competes with this nice value from view a to view b. */
  ghost predicate Stays(h: seq<View>, j: nat, nice: Nice, a: nat, b: nat) {
    forall k :: a <= k <= b && k < |h| ==> j < |h[k].ps| && Competing(h[k].ps[j]) && h[k].ps[j].priority == nice
  }

  /** The ticks it gets between those views. */
  function TicksOf(h: seq<View>, steps: seq<Step>, j: nat, a: nat, b: nat): (n: nat)
    requires a <= b <= |steps| <= |h|
    ensures n <= b - a
  {
    if a == b then 0 else TicksOf(h, steps, j, a, b - 1) + if steps[b - 1].Ticks? && h[b - 1].current == j then 1 else 0
  }

  /** What a process of this nice value is charged for so many ticks. */
  function Charges(ticks: nat, nice: Nice): nat {
    ticks * Delta(nice)
  }

  lemma ChargesMore(ticks: nat, nice: Nice)
    ensures Charges(0, nice) == 0 && Charges(ticks + 1, nice) == Charges(ticks, nice) + Delta(nice)
  {
    Distribute(ticks, 1, Delta(nice));
  }

  lemma ChargesGrow(x: nat, y: nat, nice: Nice)
    requires x <= y
    ensures Charges(x, nice) <= Charges(y, nice)
    decreases y - x
  {
    hide Charges, Delta;
    if x < y {
      ChargesMore(y - 1, nice);
      ChargesGrow(x, y - 1, nice);
    }
  }

  /** The gap between two virtual runtimes changes by what the two were charged. */
  lemma {:induction false} Drift(h: seq<View>, steps: seq<Step>, i: nat, j: nat, ni: Nice, nj: Nice, a: nat, b: nat)
    requires Moving(h, steps) && AllWithin(h, b) && a <= b <= |steps| && Stays(h, i, ni, a, b) && Stays(h, j, nj, a, b)
    ensures i < |h[a].ps| && j < |h[a].ps| && i < |h[b].ps| && j < |h[b].ps|
    ensures (h[b].ps[i].vruntime - h[b].ps[j].vruntime) - (h[a].ps[i].vruntime - h[a].ps[j].vruntime)
            == Charges(TicksOf(h, steps, i, a, b), ni) - Charges(TicksOf(h, steps, j, a, b), nj)
    decreases b - a
  {
    hide Within, Delta, Charges;
    ChargesMore(0, ni);
    ChargesMore(0, nj);
    if a < b {
      Drift(h, steps, i, j, ni, nj, a, b - 1);
      assert Within(h[b - 1].ps, Reach) && Moves(h[b - 1], h[b], steps[b - 1]);
      ChargesMore(TicksOf(h, steps, i, a, b - 1), ni);
      ChargesMore(TicksOf(h, steps, j, a, b - 1), nj);
    }
  }

  lemma GapBound(h: seq<View>, n: nat, k: nat, i: nat, j: nat)
    requires AllWithin(h, n) && k <= n && k < |h| && i < |h[k].ps| && j < |h[k].ps|
    requires Competing(h[k].ps[i]) && Competing(h[k].ps[j])
    ensures h[k].ps[i].vruntime - h[k].ps[j].vruntime <= SPREAD
  {
    assert Reach(h[k].ps[i]) - h[k].ps[j].vruntime <= SPREAD;
  }

  lemma StaysAt(h: seq<View>, j: nat, nice: Nice, a: nat, b: nat)
    requires Stays(h, j, nice, a, b) && a <= b < |h|
    ensures j < |h[a].ps| && j < |h[b].ps| && Competing(h[a].ps[j]) && Competing(h[b].ps[j])
  {
  }

  /** Two processes that compete all the time share the processor in proportion to their weights: what they are charged
      for their ticks differs by no more than twice the bound, however long it lasts. */
  lemma {:induction false} SharesByWeight(h: seq<View>, steps: seq<Step>, i: nat, j: nat, ni: Nice,
                                          nj: Nice, a: nat, b: nat)
    requires Moving(h, steps) && AllWithin(h, b) && a <= b <= |steps| && Stays(h, i, ni, a, b) && Stays(h, j, nj, a, b)
    ensures a <= b <= |steps| <= |h|
    ensures -2 * SPREAD <= Charges(TicksOf(h, steps, i, a, b), ni) - Charges(TicksOf(h, steps, j, a, b), nj)
            <= 2 * SPREAD
  {
    hide Delta, TicksOf, Charges, Stays, AllWithin;
    Drift(h, steps, i, j, ni, nj, a, b);
    StaysAt(h, i, ni, a, b);
    StaysAt(h, j, nj, a, b);
    GapBound(h, b, a, i, j);
    GapBound(h, b, a, j, i);
    GapBound(h, b, b, i, j);
    GapBound(h, b, b, j, i);
  }

  /** So the lower nice value gets more ticks over any period in which the other got so many that they would have been
      charged it less by more than that. */
  lemma {:induction false} LowerNiceGetsMore(h: seq<View>, steps: seq<Step>, i: nat, j: nat, ni: Nice,
                                             nj: Nice, a: nat, b: nat)
    requires Moving(h, steps) && AllWithin(h, b) && a <= b <= |steps| && Stays(h, i, ni, a, b) && Stays(h, j, nj, a, b)
    requires a <= b <= |steps| <= |h|
    requires Charges(TicksOf(h, steps, j, a, b), nj) - Charges(TicksOf(h, steps, j, a, b), ni) > 2 * SPREAD
    ensures TicksOf(h, steps, i, a, b) > TicksOf(h, steps, j, a, b)
  {
    hide Delta, TicksOf, Charges, Stays, Moving, AllWithin;
    SharesByWeight(h, steps, i, j, ni, nj, a, b);
    var ti, tj := TicksOf(h, steps, i, a, b), TicksOf(h, steps, j, a, b);
    if ti <= tj {
      ChargesGrow(ti, tj, ni);
    }
  }

  /** For a lower nice value there is such a number of ticks. */
  lemma {:induction false} LowerNiceIsChargedLess(ticks: nat, ni: Nice, nj: Nice)
    requires ni < nj
    ensures Charges(ticks, nj) - Charges(ticks, ni) >= ticks
  {
    hide Delta, Charges;
    ChargeFavours(ni, nj);
    ChargesMore(0, ni);
    ChargesMore(0, nj);
    if ticks > 0 {
      LowerNiceIsChargedLess(ticks - 1, ni, nj);
      ChargesMore(ticks - 1, ni);
      ChargesMore(ticks - 1, nj);
    }
  }

  /** In the long run the lower nice value gets more ticks, whatever the two are. */
  lemma LowerNiceWins(h: seq<View>, steps: seq<Step>, i: nat, j: nat, ni: Nice, nj: Nice, a: nat, b: nat)
    requires Moving(h, steps) && AllWithin(h, b) && a <= b <= |steps| && Stays(h, i, ni, a, b) && Stays(h, j, nj, a, b)
    requires a <= b <= |steps| <= |h| && ni < nj && TicksOf(h, steps, j, a, b) > 2 * SPREAD
    ensures TicksOf(h, steps, i, a, b) > TicksOf(h, steps, j, a, b)
  {
    hide Delta, TicksOf, Charges, Stays, Moving, AllWithin;
    LowerNiceIsChargedLess(TicksOf(h, steps, j, a, b), ni, nj);
    LowerNiceGetsMore(h, steps, i, j, ni, nj, a, b);
  }

  lemma Start(s: Scheduler, h: seq<View>, steps: seq<Step>)
    requires s.Level() && h == [View(s.ptable[..], s.current)]
    ensures AllWithin(h, 0) && AllKeep(h, steps, 0)
  {
  }

  lemma LastWithin(h: seq<View>, n: nat)
    requires AllWithin(h, n) && n < |h|
    ensures Within(h[n].ps, Reach)
  {
  }

  lemma OneMore(h: seq<View>, v: View, steps: seq<Step>, k: nat)
    requires |h| == k + 1 && k < |steps|
    requires Within(h[k].ps, Reach) ==> (Within(v.ps, Reach) <==> Keeps(h[k], steps[k]))
    requires forall n: nat :: n <= k ==> (AllWithin(h, n) <==> AllKeep(h, steps, n))
    ensures forall n: nat :: n <= k + 1 ==> (AllWithin(h + [v], n) <==> AllKeep(h + [v], steps, n))
  {
    hide Within, Keeps;
    var h' := h + [v];
    forall n: nat | n <= k
      ensures AllWithin(h', n) <==> AllWithin(h, n)
      ensures AllKeep(h', steps, n) <==> AllKeep(h, steps, n)
    {
      assert forall i :: 0 <= i <= n ==> h'[i] == h[i];
    }
    assert AllWithin(h', k + 1) <==> AllWithin(h', k) && Within(h'[k + 1].ps, Reach);
    assert AllKeep(h', steps, k + 1) <==> AllKeep(h', steps, k) && Keeps(h'[k], steps[k]);
    if AllWithin(h, k) {
      LastWithin(h, k);
    }
  }

  lemma InTable(s: Scheduler)
    requires Within(s.ptable[..], Vruntime)
    ensures forall i, j :: 0 <= i < s.ptable.Length && 0 <= j < s.ptable.Length ==>
              Competing(s.ptable[i]) && Competing(s.ptable[j]) ==> s.ptable[i].vruntime - s.ptable[j].vruntime <= SPREAD
  {
    forall i, j | 0 <= i < s.ptable.Length && 0 <= j < s.ptable.Length
                  && Competing(s.ptable[i]) && Competing(s.ptable[j])
      ensures s.ptable[i].vruntime - s.ptable[j].vruntime <= SPREAD
    {
      assert Vruntime(s.ptable[..][i]) - s.ptable[..][j].vruntime <= SPREAD;
    }
  }
}
