/** The fair scheduler added to xv6 (proc.c, trap.c) on one processor: the process table updated in place by scheduler,
    tick, fork, setnice, sleep, exit, kill and wakeup1. */
module Cfs {
  import opened Common
  import opened CfsState

  /** The channel of processes that sleep on the tick counter. */
  const TICKS: nat := 1

  /** The table after the running process me was charged for a tick. */
  function Charged(ps: seq<Proc>, me: nat): (r: seq<Proc>)
    requires me < |ps| && HasVruntime(ps[me])
    ensures |r| == |ps|
  {
    var d := Delta(ps[me].priority);
    var down := if ps[me].vruntime + d > MAXIMUM_INT then -RESCALE else 0;
    var charged: Int32 := ps[me].vruntime + down + d;
    seq(|ps|, j requires 0 <= j < |ps| =>
      if j == me then ps[j].(vruntime := charged, interval := ps[j].interval + TICK) else Rescaled(ps[j], down))
  }

  /** The running process at the end of its slice. */
  function Preempted(p: Proc): Proc {
    if p.interval >= p.timeslice then p.(state := Runnable, interval := 0) else p
  }

  class Scheduler {
    const ptable: array<Proc>
    var current: int   // the running process, -1 in the scheduler
    var nextpid: nat

    ghost predicate Valid()
      reads this, ptable
    {
      && ptable.Length <= NPROC && Shape(ptable[..], current, nextpid)
      && (current >= 0 ==> ptable[current].interval < ptable[current].timeslice)
    }

    /** Competing processes are within SPREAD of each other, and stay so while the current slice lasts. */
    ghost predicate Level()
      reads this, ptable
    {
      Within(ptable[..], Reach)
    }

    /** The table with the first process, as userinit leaves it. */
    constructor (n: nat)
      requires 0 < n <= NPROC
      ensures Valid() && Level() && ptable.Length == n && current == -1 && fresh(ptable)
      ensures forall j :: 0 <= j < n ==> ptable[j].state == if j == 0 then Runnable else Unused
    {
      ptable := new Proc[n](j => Proc(if j == 0 then Runnable else Unused, if j == 0 then 1 else 0, 0, 0, 0, 0, 0));
      current, nextpid := -1, 2;
    }

    /** overflow_handler: move all virtual runtimes down (i > 0) or up (i < 0), saturating. */
    method OverflowHandler(i: int)
      modifies ptable
      ensures forall j :: 0 <= j < ptable.Length ==>
                ptable[j] == if i > 0 then Rescaled(old(ptable[j]), -RESCALE)
                             else if i < 0 then Rescaled(old(ptable[j]), RESCALE)
                             else old(ptable[j])
    {
      if i == 0 {
        return;
      }
      var diff: Int32 := if i > 0 then RESCALE * -1 else RESCALE;
      var p := 0;
      while p < ptable.Length
        invariant p <= ptable.Length
        invariant forall j :: 0 <= j < p ==> ptable[j] == Rescaled(old(ptable[j]), diff)
        invariant forall j :: p <= j < ptable.Length ==> ptable[j] == old(ptable[j])
      {
        if HasVruntime(ptable[p]) {
          if IsOverflow(ptable[p].vruntime, diff) {
            ptable[p] := ptable[p].(vruntime := if i > 0 then MINIMUM_INT else MAXIMUM_INT);
          } else {
            ptable[p] := ptable[p].(vruntime := ptable[p].vruntime + diff);
          }
        }
        p := p + 1;
      }
    }

    /** total_weight_of_runnable_process. */
    method TotalWeightOfRunnable() returns (ret: nat)
      requires ptable.Length <= NPROC
      ensures ret == TotalWeight(ptable[..])
    {
      ret := 0;
      var p := 0;
      while p < ptable.Length
        invariant p <= ptable.Length && ret == TotalWeight(ptable[..p])
      {
        assert ptable[..p + 1][..p] == ptable[..p];
        if ptable[p].state == Runnable {
          ret := (ret + Weight(ptable[p].priority)) % UINT;
        }
        p := p + 1;
      }
      assert ptable[..p] == ptable[..];
    }

    /** The scheduler's choice once it has come across runnable process p: a runnable process of least virtual runtime,
        p itself if none has less. */
    method PickNext(p: nat) returns (low: nat)
      requires p < ptable.Length && ptable[p].state == Runnable
      ensures low < ptable.Length && ptable[low].state == Runnable
      ensures forall j :: 0 <= j < ptable.Length && ptable[j].state == Runnable ==>
                ptable[low].vruntime <= ptable[j].vruntime
      ensures ptable[low].vruntime == ptable[p].vruntime ==> low == p
      ensures low != p ==> forall j :: 0 <= j < low && ptable[j].state == Runnable ==>
                ptable[low].vruntime < ptable[j].vruntime
    {
      low := p;
      var p1 := 0;
      while p1 < ptable.Length
        invariant p1 <= ptable.Length && low < ptable.Length && ptable[low].state == Runnable
        invariant forall j :: 0 <= j < p1 && ptable[j].state == Runnable ==> ptable[low].vruntime <= ptable[j].vruntime
        invariant ptable[low].vruntime <= ptable[p].vruntime
                  && (ptable[low].vruntime == ptable[p].vruntime ==> low == p)
        invariant low != p ==> low < p1 && forall j :: 0 <= j < low && ptable[j].state == Runnable ==>
                  ptable[low].vruntime < ptable[j].vruntime
      {
        if ptable[p1].state == Runnable && ptable[low].vruntime > ptable[p1].vruntime {
          low := p1;
        }
        p1 := p1 + 1;
      }
    }

    method NextRunnable(start: nat) returns (p: nat)
      requires start <= ptable.Length
      ensures start <= p <= ptable.Length && (forall j :: start <= j < p ==> ptable[j].state != Runnable)
      ensures p < ptable.Length ==> ptable[p].state == Runnable
    {
      p := start;
      while p < ptable.Length && ptable[p].state != Runnable
        invariant start <= p <= ptable.Length
        invariant forall j :: start <= j < p ==> ptable[j].state != Runnable
      {
        p := p + 1;
      }
    }

    /** The scheduler's scan of the table from position start on: the process it switches to, if any, and where the scan
        goes on when that process gives up the processor. */
    method Schedule(start: nat) returns (next: nat)
      requires Valid() && current == -1 && start <= ptable.Length
      modifies this`current, ptable
      ensures Valid() && (old(Level()) ==> Level()) && next <= ptable.Length
      ensures current == -1 ==>
                ptable[..] == old(ptable[..]) && forall j :: start <= j < ptable.Length ==> ptable[j].state != Runnable
      ensures current >= 0 ==>
                var ps := old(ptable[..]);
                && current < |ps| && ps[current].state == Runnable && next == current + 1
                && (forall j :: 0 <= j < |ps| && ps[j].state == Runnable ==> ps[current].vruntime <= ps[j].vruntime)
                && TotalWeight(ps) > 0
                && ptable[..] == ps[current := ps[current].(state := Running, interval := 0,
                                            timeslice := Slice(ps[current].priority, TotalWeight(ps)))]
    {
      hide Within, TotalWeight, Slice;
      var p := NextRunnable(start);
      if p == ptable.Length {
        return p;
      }
      ghost var ps := ptable[..];
      p := PickNext(p);
      WeightOfOne(ps, p);
      var total := TotalWeightOfRunnable();
      var weight := Weight(ptable[p].priority);
      SliceRange(ptable[p].priority, total);
      var slice := (1000 * (10 * weight) + total - 1) % UINT / total;
      SliceIs(ptable[p].priority, total, slice);
      ptable[p] := ptable[p].(state := Running, interval := 0, timeslice := slice);
      current := p;
      next := p + 1;
      if Within(ps, Reach) {
        FairResumed(ps, ptable[..], p, nextpid);
      }
    }

    /** The tick's charge to the running process, everybody rescaled if its virtual runtime would overflow. */
    method Charge()
      requires Valid() && current >= 0
      modifies ptable
      ensures HasVruntime(old(ptable[current])) && ptable[..] == Charged(old(ptable[..]), current)
      ensures Shape(ptable[..], current, nextpid) && (old(Level()) ==> Level())
    {
      hide Within, IsOverflow, Rescaled, Charged;
      var me := current;
      ghost var ps0 := ptable[..];
      var w := Weight(ptable[me].priority);
      var delta := (1000 * 1024 + w - 1) / w;
      ghost var down := MakeRoom(me, delta);
      ghost var ps1 := ptable[..];
      ptable[me] := ptable[me].(vruntime := ptable[me].vruntime + delta, interval := ptable[me].interval + TICK);
      IsCharged(ps0, ps1, ptable[..], me);
      ShapeCharged(ps0, ptable[..], me, nextpid);
      if Within(ps0, Reach) {
        FairRescaled(ps0, ps1, me, nextpid, down);
        FairCharged(ps1, ptable[..], me, nextpid, delta);
      }
    }

    /** The tick's rescaling loop, which runs at most once. */
    method MakeRoom(me: nat, delta: nat) returns (ghost down: int)
      requires me < ptable.Length && HasVruntime(ptable[me]) && delta <= MAXDELTA
      modifies ptable
      ensures down == if old(ptable[me]).vruntime + delta > MAXIMUM_INT then -RESCALE else 0
      ensures forall j :: 0 <= j < ptable.Length ==> ptable[j] == Rescaled(old(ptable[j]), down)
      ensures ptable[me] == old(ptable[me]).(vruntime := old(ptable[me]).vruntime + down)
      ensures ptable[me].vruntime + delta <= MAXIMUM_INT
    {
      down := 0;
      while IsOverflow(ptable[me].vruntime, delta)
        invariant down == 0 || (down == -RESCALE && ptable[me].vruntime + delta <= MAXIMUM_INT)
        invariant down != 0 ==> old(ptable[me]).vruntime + delta > MAXIMUM_INT
        invariant forall j :: 0 <= j < ptable.Length ==> ptable[j] == Rescaled(old(ptable[j]), down)
        decreases ptable[me].vruntime - MINIMUM_INT
      {
        OverflowHandler(delta);
        down := -RESCALE;
      }
    }

    /** Preemption at the end of the slice. */
    method Preempt()
      requires ptable.Length <= NPROC && Shape(ptable[..], current, nextpid) && current >= 0
      modifies this`current, ptable
      ensures Valid() && (Level() <==> old(Level()))
      ensures ptable[..] == old(ptable[..])[old(current) := Preempted(old(ptable[current]))]
      ensures current == if old(ptable[current].interval >= ptable[current].timeslice) then -1 else old(current)
    {
      if ptable[current].interval >= ptable[current].timeslice {
        ghost var ps := ptable[..];
        ptable[current] := ptable[current].(interval := 0, state := Runnable);
        PreemptedWithin(ps, ptable[..], current);
        current := -1;
      }
    }

    /** The timer interrupt: charge, wake who sleeps on the tick counter, preempt.  The bound survives exactly if that
        wakeup keeps it. */
    method Tick()
      requires Valid() && current >= 0
      modifies this`current, ptable
      ensures Valid() && old(current) < ptable.Length && HasVruntime(old(ptable[current]))
      ensures exists ps :: AllWoken(Charged(old(ptable[..]), old(current)), ps, TICKS)
                           && ptable[..] == ps[old(current) := Preempted(ps[old(current)])]
      ensures old(Level()) ==> (Level() <==> WakeupKeeps(Charged(old(ptable[..]), old(current)), TICKS, Reach))
    {
      hide Charged, Within, WakeupKeeps, WokenOk, Greatest, Lowest;
      Charge();
      Wakeup1(TICKS);
      Preempt();
    }

    /** fork by the running process: the child, in the first free slot, inherits nice value and virtual runtime; copied
        tells whether there was memory for it. */
    method Fork(copied: bool) returns (pid: int)
      requires Valid() && current >= 0
      modifies this`nextpid, ptable
      ensures Valid() && (old(Level()) ==> Level())
      ensures pid == -1 <==> !copied || forall j :: 0 <= j < ptable.Length ==> old(ptable[j]).state != Unused
      ensures pid >= 0 ==> pid == old(nextpid) && old(current) < ptable.Length
      ensures pid >= -1
      ensures pid >= 0 ==>
                exists np: nat ::
                  && np < ptable.Length && ForkedAt(old(ptable[..]), ptable[..], current, np, pid)
                  && ptable[np].priority == old(ptable[current]).priority
                  && ptable[np].vruntime == old(ptable[current]).vruntime
      ensures pid == -1 ==> forall j :: 0 <= j < ptable.Length ==> SameUnlessUnused(ptable[j], old(ptable[j]))
    {
      hide Within;
      ghost var ps := ptable[..];
      var np := 0;
      while np < ptable.Length && ptable[np].state != Unused
        invariant np <= ptable.Length && forall j :: 0 <= j < np ==> ptable[j].state != Unused
      {
        np := np + 1;
      }
      if np == ptable.Length {
        return -1;
      }
      ptable[np] := ptable[np].(state := Embryo, pid := nextpid, priority := 0);
      nextpid := nextpid + 1;
      if !copied {
        ptable[np] := ptable[np].(state := Unused);
        IdleChange(ps, ptable[..], np);
        return -1;
      }
      ptable[np] := ptable[np].(state := Runnable, priority := ptable[current].priority,
                                vruntime := ptable[current].vruntime);
      ForkedWithin(ps, ptable[..], current, np);
      pid := ptable[np].pid;
      assert ForkedAt(ps, ptable[..], current, np, pid);
    }

    /** setnice: the first process of that pid gets the nice value. */
    method SetNice(pid: nat, nice: int) returns (r: int)
      requires Valid()
      modifies ptable
      ensures Valid() && (old(Level()) ==> Level())
      ensures r == if -5 <= nice <= 5 && (exists p :: 0 <= p < ptable.Length && old(ptable[p]).pid == pid) then 0
                   else -1
      ensures r == -1 ==> ptable[..] == old(ptable[..])
      ensures r == 0 ==> exists p :: 0 <= p < ptable.Length && FirstOf(old(ptable[..]), p, pid)
                           && ptable[..] == old(ptable[..])[p := old(ptable[p]).(priority := nice)]
    {
      hide Within;
      if nice < -5 || nice > 5 {
        return -1;
      }
      ghost var ps := ptable[..];
      var p := 0;
      while p < ptable.Length
        invariant p <= ptable.Length && ptable[..] == ps && forall j :: 0 <= j < p ==> ptable[j].pid != pid
      {
        if ptable[p].pid == pid {
          ptable[p] := ptable[p].(priority := nice);
          RenicedWithin(ps, ptable[..], p);
          assert FirstOf(ps, p, pid);
          return 0;
        }
        p := p + 1;
      }
      r := -1;
    }

    /** kill: a sleeping process competes again, with the virtual runtime it has. */
    method Kill(pid: nat) returns (r: int)
      requires Valid()
      modifies ptable
      ensures Valid()
      ensures r == -1 ==> ptable[..] == old(ptable[..]) && forall p :: 0 <= p < ptable.Length ==>
                old(ptable[p]).pid != pid
      ensures r != -1 ==> r == 0 && exists p: nat :: p < ptable.Length && KilledAt(old(ptable[..]), ptable[..], p, pid)
      ensures r != -1 && old(Level()) ==>
                (Level() <==> forall p: nat :: p < ptable.Length && FirstOf(old(ptable[..]), p, pid) ==>
                                KillKeeps(old(ptable[..]), p))
    {
      hide Within, KillKeeps;
      ghost var ps := ptable[..];
      var p := 0;
      while p < ptable.Length
        invariant p <= ptable.Length && ptable[..] == ps && forall j :: 0 <= j < p ==> ptable[j].pid != pid
      {
        if ptable[p].pid == pid {
          if ptable[p].state == Sleeping {
            ptable[p] := ptable[p].(state := Runnable);
          }
          if Within(ps, Reach) {
            KillKeepsFairIff(ps, p, current, nextpid);
          }
          assert KilledAt(ps, ptable[..], p, pid);
          assert FirstOf(ps, p, pid) && forall q: nat :: q < |ps| && FirstOf(ps, q, pid) ==> q == p;
          return 0;
        }
        p := p + 1;
      }
      r := -1;
    }

    /** The running process goes to sleep on chan, or exits. */
    method Leave(state: State, chan: nat)
      requires Valid() && current >= 0 && (state == Sleeping || state == Zombie)
      modifies this`current, ptable
      ensures Valid() && (old(Level()) ==> Level()) && current == -1
      ensures ptable[..] == old(ptable[..])[old(current) := old(ptable[current]).(state := state, chan := chan)]
    {
      hide Within;
      ghost var ps := ptable[..];
      ptable[current] := ptable[current].(state := state, chan := chan);
      if Within(ps, Reach) {
        FairWithout(ps, ptable[..], current);
      }
      current := -1;
    }

    /** wait frees the slot of a process that exited. */
    method Reap(p: nat)
      requires Valid() && p < ptable.Length && ptable[p].state == Zombie
      modifies ptable
      ensures Valid() && (old(Level()) ==> Level())
      ensures ptable[..] == old(ptable[..])[p := old(ptable[p]).(state := Unused, pid := 0)]
    {
      hide Within;
      ghost var ps := ptable[..];
      ptable[p] := ptable[p].(state := Unused, pid := 0);
      IdleChange(ps, ptable[..], p);
    }

    // ---- wakeup ----------------------------------------------------------------------------------------------------

    /** wakeup1: the bound survives exactly under the condition on the table before. */
    method Wakeup1(chan: nat)
      requires ptable.Length <= NPROC && Shape(ptable[..], current, nextpid)
      modifies ptable
      ensures AllWoken(old(ptable[..]), ptable[..], chan) && Shape(ptable[..], current, nextpid)
      ensures current >= 0 ==> ptable[current] == old(ptable[current])
      ensures old(Level()) ==> (Level() <==> WakeupKeeps(old(ptable[..]), chan, Reach))
    {
      hide Within, Woken, WokenOk, WakeupKeeps;
      ghost var ps := ptable[..];
      var minimum := LeastCompeting();
      var notempty := false;
      var p := 0;
      NobodyWokenYet(ps, chan, minimum);
      while p < ptable.Length
        invariant p <= ptable.Length && Woken(ps, ptable[..], chan, p, notempty, minimum)
      {
        StillThere(ps, ptable[..], chan, p, notempty, minimum);
        if Wakes(ptable[p], chan) {
          notempty, minimum := WakeOne(ps, chan, p, notempty, minimum);
        } else {
          StillWoken(ps, ptable[..], chan, p, notempty, minimum);
        }
        p := p + 1;
      }
      EverybodyWoken(ps, ptable[..], chan, notempty, minimum);
      ShapeWoken(ps, ptable[..], chan, current, nextpid);
      if current >= 0 {
        CompetitorStays(ps, ptable[..], chan, current);
      }
      if Within(ps, Reach) {
        WakeupKeepsFairIff(ps, ptable[..], chan, current, nextpid);
      }
    }

    /** wakeup1's first loop: the least of 0 and the competing virtual runtimes. */
    method LeastCompeting() returns (minimum: Int32)
      ensures minimum <= 0 && forall j :: 0 <= j < ptable.Length && Competing(ptable[j]) ==>
                minimum <= ptable[j].vruntime
      ensures minimum == 0
              || exists j :: 0 <= j < ptable.Length && Competing(ptable[j]) && minimum == ptable[j].vruntime
    {
      minimum := 0;
      var p := 0;
      while p < ptable.Length
        invariant p <= ptable.Length && minimum <= 0
        invariant forall j :: 0 <= j < p && Competing(ptable[j]) ==> minimum <= ptable[j].vruntime
        invariant minimum == 0 || exists j :: 0 <= j < p && Competing(ptable[j]) && minimum == ptable[j].vruntime
      {
        if Competing(ptable[p]) && minimum > ptable[p].vruntime {
          minimum := ptable[p].vruntime;
        }
        p := p + 1;
      }
    }

    /** The body of wakeup1's second loop for a process it wakes. */
    method WakeOne(ghost ps: seq<Proc>, chan: nat, p: nat, notempty0: bool, minimum0: Int32)
      returns (notempty: bool, minimum: Int32)
      requires p < ptable.Length && Woken(ps, ptable[..], chan, p, notempty0, minimum0) && Wakes(ptable[p], chan)
      requires |ps| == ptable.Length && Shape(ps, current, nextpid)
      modifies ptable
      ensures Woken(ps, ptable[..], chan, p + 1, notempty, minimum)
    {
      hide Woken, WokenOk, Alone, LeastBefore, Scanned, Shape, IsOverflow, Weight;
      ghost var ps1 := ptable[..];
      AtSlot(ps, ps1, chan, p, notempty0, minimum0);
      OtherPids(ps, ps1, chan, p, notempty0, minimum0, current, nextpid);
      ptable[p] := ptable[p].(state := Runnable);
      notempty, minimum := ScanOthers(p, notempty0, minimum0);
      ScannedElsewhere(ptable[..], ps1, p, notempty0, minimum0, notempty, minimum);
      if notempty {
        var bonus: nat := TICK * 1024 / Weight(ptable[p].priority);
        assert bonus == WakeBonus(ptable[p].priority);
        if IsOverflow(minimum, -1 * bonus) {
          ptable[p] := ptable[p].(vruntime := MINIMUM_INT);
        } else {
          ptable[p] := ptable[p].(vruntime := minimum - bonus);
        }
      } else {
        ptable[p] := ptable[p].(vruntime := 0);
      }
      WokenNext(ps, ps1, ptable[..], chan, p, notempty0, minimum0, notempty, minimum);
    }

    /** wakeup1's inner loop: the other competing processes. */
    method ScanOthers(p: nat, notempty0: bool, minimum0: Int32) returns (notempty: bool, minimum: Int32)
      requires p < ptable.Length
      requires forall j :: 0 <= j < ptable.Length && j != p && Competing(ptable[j]) ==> ptable[j].pid != ptable[p].pid
      ensures Scanned(ptable[..], p, notempty0, minimum0, notempty, minimum)
    {
      notempty, minimum := notempty0, minimum0;
      var p1 := 0;
      while p1 < ptable.Length
        invariant p1 <= ptable.Length && Scanned(ptable[..p1], p, notempty0, minimum0, notempty, minimum)
      {
        if ptable[p].pid != ptable[p1].pid && Competing(ptable[p1]) {
          notempty := true;
          if minimum > ptable[p1].vruntime {
            minimum := ptable[p1].vruntime;
          }
        }
        p1 := p1 + 1;
      }
      assert ptable[..p1] == ptable[..];
    }
  }

  /** p is the first process of that pid in the table. */
  predicate FirstOf(ps: seq<Proc>, p: nat, pid: nat)
    requires p < |ps|
  {
    ps[p].pid == pid && forall j | 0 <= j < p :: ps[j].pid != pid
  }

  predicate KilledAt(ps: seq<Proc>, ps': seq<Proc>, p: nat, pid: nat)
    requires p < |ps|
  {
    FirstOf(ps, p, pid) && ps' == if ps[p].state == Sleeping then ps[p := ps[p].(state := Runnable)] else ps
  }

  /** The child of process me in slot np, the first free one. */
  predicate ForkedAt(ps: seq<Proc>, ps': seq<Proc>, me: nat, np: nat, pid: nat)
    requires me < |ps| && np < |ps|
  {
    && ps[np].state == Unused && (forall j | 0 <= j < np :: ps[j].state != Unused)
    && ps' == ps[np := ps[np].(state := Runnable, pid := pid, priority := ps[me].priority, vruntime := ps[me].vruntime)]
  }

  predicate SameUnlessUnused(p: Proc, q: Proc) {
    p.state == q.state && (p.state != Unused ==> p == q)
  }

  lemma IsCharged(ps0: seq<Proc>, ps1: seq<Proc>, ps2: seq<Proc>, me: nat)
    requires me < |ps0| == |ps1| == |ps2| && HasVruntime(ps0[me])
    requires var d := Delta(ps0[me].priority);
             var down := if ps0[me].vruntime + d > MAXIMUM_INT then -RESCALE else 0;
             && (forall j :: 0 <= j < |ps0| ==> ps1[j] == Rescaled(ps0[j], down))
             && ps1[me].vruntime == ps0[me].vruntime + down
             && ps2 == ps1[me := ps1[me].(vruntime := ps2[me].vruntime, interval := ps1[me].interval + TICK)]
             && ps2[me].vruntime == ps1[me].vruntime + d
    ensures ps2 == Charged(ps0, me)
  {
  }

  lemma ShapeCharged(ps: seq<Proc>, ps': seq<Proc>, me: nat, nextpid: nat)
    requires Shape(ps, me, nextpid) && me < |ps| && HasVruntime(ps[me]) && ps' == Charged(ps, me)
    ensures Shape(ps', me, nextpid)
  {
  }

  lemma PreemptedWithin(ps: seq<Proc>, ps': seq<Proc>, me: nat)
    requires me < |ps| && ps[me].state == Running && ps[me].interval >= ps[me].timeslice
    requires ps' == ps[me := ps[me].(interval := 0, state := Runnable)]
    ensures Within(ps', Reach) <==> Within(ps, Reach)
  {
    forall i | 0 <= i < |ps|
      ensures Competing(ps'[i]) == Competing(ps[i]) && Reach(ps'[i]) == Reach(ps[i])
              && ps'[i].vruntime == ps[i].vruntime
    {
    }
  }

  /** Processes that do not compete do not matter. */
  lemma IdleChange(ps: seq<Proc>, ps': seq<Proc>, k: nat)
    requires k < |ps| == |ps'| && ps' == ps[k := ps'[k]] && !Competing(ps[k]) && !Competing(ps'[k])
    ensures Within(ps', Reach) <==> Within(ps, Reach)
  {
    assert forall i :: 0 <= i < |ps| && i != k ==> ps'[i] == ps[i];
  }

  lemma ForkedWithin(ps: seq<Proc>, ps': seq<Proc>, me: nat, np: nat)
    requires me < |ps| && np < |ps| == |ps'| && Competing(ps[me]) && !Competing(ps[np]) && ps' == ps[np := ps'[np]]
    requires ps'[np].state == Runnable && ps'[np].vruntime == ps[me].vruntime
    ensures Within(ps, Reach) ==> Within(ps', Reach)
  {
    if Within(ps, Reach) {
      forall i, j | 0 <= i < |ps| && 0 <= j < |ps| && Competing(ps'[i]) && Competing(ps'[j])
        ensures Reach(ps'[i]) - ps'[j].vruntime <= SPREAD
      {
        var i', j' := if i == np then me else i, if j == np then me else j;
        assert Reach(ps[i']) - ps[j'].vruntime <= SPREAD;
      }
    }
  }

  lemma RenicedWithin(ps: seq<Proc>, ps': seq<Proc>, p: nat)
    requires p < |ps| == |ps'| && ps' == ps[p := ps[p].(priority := ps'[p].priority)]
    ensures Within(ps', Reach) <==> Within(ps, Reach)
  {
    forall i | 0 <= i < |ps|
      ensures Competing(ps'[i]) == Competing(ps[i]) && Reach(ps'[i]) == Reach(ps[i])
              && ps'[i].vruntime == ps[i].vruntime
    {
    }
  }

  lemma NobodyWokenYet(ps: seq<Proc>, chan: nat, minimum: Int32)
    requires minimum <= 0 && forall j :: 0 <= j < |ps| && Competing(ps[j]) ==> minimum <= ps[j].vruntime
    requires minimum == 0 || exists j :: 0 <= j < |ps| && Competing(ps[j]) && minimum == ps[j].vruntime
    ensures Woken(ps, ps, chan, 0, false, minimum)
  {
    if minimum != 0 {
      var j :| 0 <= j < |ps| && Competing(ps[j]) && minimum == ps[j].vruntime;
      assert Before(ps, chan, 0, j);
    }
  }

  lemma StillThere(ps: seq<Proc>, ps': seq<Proc>, chan: nat, p: nat, notempty: bool, minimum: Int32)
    requires Woken(ps, ps', chan, p, notempty, minimum) && p < |ps|
    ensures |ps'| == |ps| && ps'[p] == ps[p]
  {
  }

  lemma AtSlot(ps: seq<Proc>, ps': seq<Proc>, chan: nat, p: nat, notempty: bool, minimum: Int32)
    requires Woken(ps, ps', chan, p, notempty, minimum) && p < |ps| && Wakes(ps'[p], chan)
    ensures |ps'| == |ps| && ps'[p] == ps[p]
    ensures forall j: nat :: j < |ps| && j != p ==> (Competing(ps'[j]) <==> Before(ps, chan, p, j))
  {
    ComparedWith(ps, ps', chan, p);
  }

  lemma EverybodyWoken(ps: seq<Proc>, ps': seq<Proc>, chan: nat, notempty: bool, minimum: Int32)
    requires Woken(ps, ps', chan, |ps|, notempty, minimum)
    ensures AllWoken(ps, ps', chan)
  {
  }

  /** Comparing pids, as wakeup1 does, tells processes apart. */
  lemma OtherPids(ps: seq<Proc>, ps': seq<Proc>, chan: nat, p: nat, notempty: bool, minimum: Int32, current: int,
                  nextpid: nat)
    requires Shape(ps, current, nextpid) && Woken(ps, ps', chan, p, notempty, minimum) && p < |ps|
             && ps[p].state != Unused
    ensures |ps'| == |ps| && forall j: nat :: j < |ps| && j != p && Competing(ps'[j]) ==> ps'[j].pid != ps'[p].pid
  {
    forall j: nat | j < |ps| && j != p && Competing(ps'[j])
      ensures ps'[j].pid != ps'[p].pid
    {
      if j < p {
        assert WokenOk(ps, ps', chan, j);
      }
    }
  }
}
