/** The fair scheduler added to xv6 (proc.c, trap.c) as values: nice weights, time slices, saturating 32-bit virtual
    runtimes, how far they may be apart, and exactly which wakeups keep them so. */
module CfsState {
  import opened Common

  const MINIMUM_INT := -0x8000_0000
  const MAXIMUM_INT := 0x7FFF_FFFF
  const NPROC := 64
  const TICK := 1000             // a tick in milliticks
  const RESCALE := 0x0FFF_FFFF   // by how much overflow_handler moves everybody

  type Int32 = x: int | MINIMUM_INT <= x <= MAXIMUM_INT witness 0
  type Nice = x: int | -5 <= x <= 5 witness 0

  datatype State = Unused | Embryo | Sleeping | Runnable | Running | Zombie

  datatype Proc = Proc(state: State, pid: nat, chan: nat, priority: Nice, vruntime: Int32, interval: nat,
                       timeslice: nat)

  function Weight(nice: Nice): (w: nat)
    ensures 335 <= w <= 3121
  {
    [3121, 2501, 1991, 1586, 1277, 1024, 820, 655, 526, 423, 335][nice + 5]
  }

  /** is_overflow, whose own subtractions do not overflow. */
  function IsOverflow(a: Int32, b: Int32): (r: bool)
    ensures r <==> !(MINIMUM_INT <= a + b <= MAXIMUM_INT)
  {
    if b > 0 then
      var room: Int32 := MAXIMUM_INT - b; a > room
    else if b < 0 then
      var room: Int32 := MINIMUM_INT - b; a < room
    else false
  }

  function Clamp(x: int): Int32 {
    if x < MINIMUM_INT then MINIMUM_INT else if x > MAXIMUM_INT then MAXIMUM_INT else x
  }

  predicate Competing(p: Proc) {
    p.state == Runnable || p.state == Running
  }

  predicate HasVruntime(p: Proc) {
    Competing(p) || p.state == Sleeping
  }

  /** overflow_handler's effect on a process. */
  function Rescaled(p: Proc, diff: int): Proc {
    if HasVruntime(p) then p.(vruntime := Clamp(p.vruntime + diff)) else p
  }

  /** Saturating rescaling keeps the order of virtual runtimes and never widens a gap. */
  lemma RescaledOrder(p: Proc, q: Proc, diff: int)
    requires HasVruntime(p) && HasVruntime(q) && p.vruntime <= q.vruntime
    ensures 0 <= Rescaled(q, diff).vruntime - Rescaled(p, diff).vruntime <= q.vruntime - p.vruntime
  {
  }

  /** What a tick adds to a virtual runtime: 1000 * 1024 / weight, rounded up. */
  function Delta(nice: Nice): (d: nat)
    ensures 329 <= d <= MAXDELTA
  {
    (TICK * 1024 + Weight(nice) - 1) / Weight(nice)
  }

  const MAXDELTA := 3057

  /** What a woken process is put ahead: the same, rounded down. */
  function WakeBonus(nice: Nice): (d: nat)
    ensures 328 <= d <= MAXDELTA
  {
    TICK * 1024 / Weight(nice)
  }

  // ---- time slices -------------------------------------------------------------------------------------------------

  function TotalWeight(ps: seq<Proc>): (w: nat)
    ensures w <= |ps| * 3121
  {
    if ps == [] then 0
    else
      TotalWeight(ps[..|ps| - 1]) + if ps[|ps| - 1].state == Runnable then Weight(ps[|ps| - 1].priority) else 0
  }

  /** Ceil(10 * 1000 * W / sum(W)), as the scheduler computes it. */
  function Slice(nice: Nice, total: nat): nat
    requires total > 0
  {
    (1000 * (10 * Weight(nice)) + total - 1) / total
  }

  function Runnables(ps: seq<Proc>): nat {
    if ps == [] then 0 else Runnables(ps[..|ps| - 1]) + if ps[|ps| - 1].state == Runnable then 1 else 0
  }

  /** The slices all runnable processes get. */
  function SliceSum(ps: seq<Proc>, total: nat): nat
    requires total > 0
  {
    if ps == [] then 0
    else
      SliceSum(ps[..|ps| - 1], total)
      + if ps[|ps| - 1].state == Runnable then Slice(ps[|ps| - 1].priority, total) else 0
  }

  lemma SliceBounds(nice: Nice, total: nat)
    requires total > 0
    ensures 10000 * Weight(nice) <= Slice(nice, total) * total <= 10000 * Weight(nice) + total - 1
  {
    var a := 1000 * (10 * Weight(nice)) + total - 1;
    assert a == a / total * total + a % total;
  }

  /** Each step down in nice value weighs about a quarter more. */
  lemma WeightSteps(nice: Nice)
    requires nice < 5
    ensures 124 * Weight(nice + 1) <= 100 * Weight(nice) <= 127 * Weight(nice + 1)
    ensures Weight(0) == 1024
  {
    assert nice in {-5, -4, -3, -2, -1, 0, 1, 2, 3, 4};
  }

  lemma LowerWeighsMore(a: Nice, b: Nice)
    requires a < b
    ensures Weight(a) > Weight(b)
    decreases b - a
  {
    WeightSteps(b - 1);
    if a < b - 1 {
      LowerWeighsMore(a, b - 1);
    }
  }

  /** A slice is the process's share of ten ticks, rounded up: on one table the lower nice value has the longer one. */
  lemma {:induction false} SliceFavours(a: Nice, b: Nice, total: nat)
    requires a < b && total > 0
    ensures Slice(a, total) >= Slice(b, total)
    ensures 10000 * Weight(a) <= Slice(a, total) * total < 10000 * Weight(a) + total
  {
    LowerWeighsMore(a, b);
    SliceBounds(a, total);
    SliceBounds(b, total);
    DivisionGrows(1000 * (10 * Weight(b)) + total - 1, 1000 * (10 * Weight(a)) + total - 1, total);
  }

  lemma DivisionGrows(x: nat, y: nat, c: nat)
    requires x <= y && c > 0
    ensures x / c <= y / c
  {
    assert x == x / c * c + x % c && y == y / c * c + y % c;
    Distribute(y / c, 1, c);
    Cancel(x / c, y / c + 1, c);
  }

  /** A tick's charge is 1024000 over the weight, rounded up, and a woken process's bonus the same rounded down. */
  lemma ChargeTable(nice: Nice)
    ensures Delta(nice) == [329, 410, 515, 646, 802, 1000, 1249, 1564, 1947, 2421, 3057][nice + 5]
    ensures WakeBonus(nice) == [328, 409, 514, 645, 801, 1000, 1248, 1563, 1946, 2420, 3056][nice + 5]
  {
    if nice < 0 {
      assert nice in {-5, -4, -3, -2, -1};
    } else {
      assert nice in {0, 1, 2, 3, 4, 5};
    }
  }

  /** The lower the nice value, the less a tick is charged. */
  lemma ChargeFavours(a: Nice, b: Nice)
    requires a < b
    ensures Delta(a) < Delta(b)
  {
    hide Delta, WakeBonus;
    ChargeTable(a);
    ChargeTable(b);
  }

  lemma {:induction false} SliceSumBounds(ps: seq<Proc>, total: nat)
    requires total > 0
    ensures 10000 * TotalWeight(ps) <= SliceSum(ps, total) * total
            <= 10000 * TotalWeight(ps) + Runnables(ps) * (total - 1)
  {
    if ps != [] {
      var before, last := ps[..|ps| - 1], ps[|ps| - 1];
      SliceSumBounds(before, total);
      if last.state == Runnable {
        SliceBounds(last.priority, total);
        Distribute(SliceSum(before, total), Slice(last.priority, total), total);
        Distribute(Runnables(before), 1, total - 1);
      }
    }
  }

  lemma Distribute(a: int, b: int, c: int)
    ensures (a + b) * c == a * c + b * c
  {
  }

  lemma ProductBelow(n: nat, c: nat)
    requires c > 0
    ensures n * (c - 1) == n * c - n
  {
    Distribute(c - 1, 1, n);
  }

  lemma {:induction false} AtLeast(x: int, c: int)
    requires x >= 1 && c >= 0
    ensures x * c >= c
    decreases x
  {
    if x > 1 {
      AtLeast(x - 1, c);
      Distribute(x - 1, 1, c);
    }
  }

  lemma Cancel(a: int, b: int, c: int)
    requires c > 0
    ensures a * c <= b * c ==> a <= b
    ensures a * c < b * c ==> a < b
  {
    if a > b {
      AtLeast(a - b, c);
      Distribute(a - b, b, c);
    }
  }

  /** One round of slices lasts ten ticks, up to rounding. */
  lemma SlicesFillThePeriod(ps: seq<Proc>)
    requires Runnables(ps) > 0 && TotalWeight(ps) > 0
    ensures 10000 <= SliceSum(ps, TotalWeight(ps)) <= 10000 + Runnables(ps) - 1
  {
    hide TotalWeight, Runnables, SliceSum;
    var total, n, sum := TotalWeight(ps), Runnables(ps), SliceSum(ps, TotalWeight(ps));
    SliceSumBounds(ps, total);
    Cancel(10000, sum, total);
    Distribute(10000, n, total);
    ProductBelow(n, total);
    Cancel(sum, 10000 + n, total);
  }

  lemma {:induction false} WeightOfOne(ps: seq<Proc>, i: nat)
    requires i < |ps| && ps[i].state == Runnable
    ensures TotalWeight(ps) >= Weight(ps[i].priority) && Runnables(ps) > 0
  {
    if i < |ps| - 1 {
      WeightOfOne(ps[..|ps| - 1], i);
    }
  }

  /** Nobody's slice is empty or longer than ten ticks. */
  lemma SliceRange(nice: Nice, total: nat)
    requires total >= Weight(nice)
    ensures 1 <= Slice(nice, total) <= 10000
  {
    SliceBounds(nice, total);
    Cancel(0, Slice(nice, total), total);
    Cancel(Slice(nice, total), 10001, total);
  }

  lemma SliceIs(nice: Nice, total: nat, slice: nat)
    requires 0 < total <= NPROC * 3121 && slice == (1000 * (10 * Weight(nice)) + total - 1) % UINT / total
    ensures slice == Slice(nice, total)
  {
  }

  // ---- fairness ----------------------------------------------------------------------------------------------------

  /** How far virtual runtimes of competing processes may be apart: ten ticks of the lightest process. */
  const SPREAD := 10 * MAXDELTA

  function Vruntime(p: Proc): int {
    p.vruntime
  }

  /** The ticks left of a slice. */
  function Remaining(p: Proc): nat {
    if p.interval < p.timeslice then (p.timeslice - p.interval + TICK - 1) / TICK else 0
  }

  /** What a virtual runtime can come to before its process is preempted, at whatever nice values. */
  function Reach(p: Proc): int {
    p.vruntime + if p.state == Running then Remaining(p) * MAXDELTA else 0
  }

  /** No competing process is more than SPREAD ahead of another, as f measures it. */
  ghost predicate Within(ps: seq<Proc>, f: Proc -> int) {
    forall i, j :: 0 <= i < |ps| && 0 <= j < |ps| && Competing(ps[i]) && Competing(ps[j]) ==>
      f(ps[i]) - ps[j].vruntime <= SPREAD
  }

  /** At most the current process runs, and processes have different identifiers. */
  ghost predicate Shape(ps: seq<Proc>, current: int, nextpid: nat) {
    && -1 <= current < |ps|
    && (forall i :: 0 <= i < |ps| ==> (ps[i].state == Running <==> i == current))
    && (current >= 0 ==> ps[current].timeslice <= 10000)
    && (forall i :: 0 <= i < |ps| && ps[i].state != Unused ==> ps[i].pid < nextpid)
    && (forall i, j :: 0 <= i < j < |ps| && ps[i].state != Unused && ps[j].state != Unused ==> ps[i].pid != ps[j].pid)
  }

  /** Fair now, and until the running process has used up its slice. */
  ghost predicate Fair(ps: seq<Proc>, current: int, nextpid: nat) {
    Shape(ps, current, nextpid) && Within(ps, Reach)
  }

  lemma FairIsWithin(ps: seq<Proc>, current: int, nextpid: nat)
    requires Fair(ps, current, nextpid)
    ensures Within(ps, Vruntime)
  {
    forall i, j | 0 <= i < |ps| && 0 <= j < |ps| && Competing(ps[i]) && Competing(ps[j])
      ensures Vruntime(ps[i]) - ps[j].vruntime <= SPREAD
    {
      assert Reach(ps[i]) - ps[j].vruntime <= SPREAD;
    }
  }

  lemma RemainingBound(p: Proc)
    requires p.timeslice <= 10000
    ensures Remaining(p) <= 10 && Remaining(p) * MAXDELTA <= SPREAD
  {
  }

  /** Dispatching a process of least virtual runtime. */
  lemma FairResumed(ps: seq<Proc>, ps': seq<Proc>, p: nat, nextpid: nat)
    requires Fair(ps, -1, nextpid) && p < |ps| == |ps'| && ps[p].state == Runnable
    requires ps' == ps[p := ps[p].(state := Running, interval := 0, timeslice := ps'[p].timeslice)]
    requires 1 <= ps'[p].timeslice <= 10000
    requires forall j :: 0 <= j < |ps| && ps[j].state == Runnable ==> ps[p].vruntime <= ps[j].vruntime
    ensures Fair(ps', p, nextpid)
  {
    RemainingBound(ps'[p]);
    forall i, j | 0 <= i < |ps| && 0 <= j < |ps| && Competing(ps'[i]) && Competing(ps'[j])
      ensures Reach(ps'[i]) - ps'[j].vruntime <= SPREAD
    {
      assert Reach(ps[i]) - ps[j].vruntime <= SPREAD;
    }
  }

  /** Rescaling everybody. */
  lemma FairRescaled(ps: seq<Proc>, ps': seq<Proc>, current: int, nextpid: nat, diff: int)
    requires Fair(ps, current, nextpid) && |ps'| == |ps|
    requires forall j :: 0 <= j < |ps| ==> ps'[j] == Rescaled(ps[j], diff)
    ensures Fair(ps', current, nextpid)
  {
    hide Remaining;
    forall i, j | 0 <= i < |ps| && 0 <= j < |ps| && Competing(ps'[i]) && Competing(ps'[j])
      ensures Reach(ps'[i]) - ps'[j].vruntime <= SPREAD
    {
      assert Reach(ps[i]) - ps[j].vruntime <= SPREAD;
      assert Remaining(ps'[i]) == Remaining(ps[i]) by {
        SameSlice(ps[i], ps'[i]);
      }
      if ps[i].state == Running { RemainingBound(ps[i]); }
      if ps[i].vruntime <= ps[j].vruntime {
        RescaledOrder(ps[i], ps[j], diff);
      } else {
        RescaledOrder(ps[j], ps[i], diff);
      }
    }
  }

  lemma SameSlice(p: Proc, q: Proc)
    requires p.interval == q.interval && p.timeslice == q.timeslice
    ensures Remaining(p) == Remaining(q)
  {
  }

  /** Charging the running process for a tick of its slice. */
  lemma FairCharged(ps: seq<Proc>, ps': seq<Proc>, me: nat, nextpid: nat, delta: nat)
    requires Fair(ps, me, nextpid) && delta <= MAXDELTA && me < |ps| == |ps'| && ps[me].interval < ps[me].timeslice
    requires ps' == ps[me := ps[me].(vruntime := ps'[me].vruntime, interval := ps[me].interval + TICK)]
    requires ps'[me].vruntime == ps[me].vruntime + delta
    ensures Fair(ps', me, nextpid)
  {
    assert Remaining(ps'[me]) == Remaining(ps[me]) - 1;
    forall i, j | 0 <= i < |ps| && 0 <= j < |ps| && Competing(ps'[i]) && Competing(ps'[j])
      ensures Reach(ps'[i]) - ps'[j].vruntime <= SPREAD
    {
      assert Reach(ps[i]) - ps[j].vruntime <= SPREAD;
    }
  }

  /** Being preempted, asleep or gone costs nobody anything. */
  lemma FairWithout(ps: seq<Proc>, ps': seq<Proc>, me: nat)
    requires Within(ps, Reach) && me < |ps| == |ps'| && Competing(ps[me])
    requires ps' == ps[me := ps'[me]] && ps'[me].vruntime == ps[me].vruntime && ps'[me].state != Running
    ensures Within(ps', Reach)
  {
    forall i, j | 0 <= i < |ps| && 0 <= j < |ps| && Competing(ps'[i]) && Competing(ps'[j])
      ensures Reach(ps'[i]) - ps'[j].vruntime <= SPREAD
    {
      assert Reach(ps[i]) - ps[j].vruntime <= SPREAD;
    }
  }

  // ---- wakeup ------------------------------------------------------------------------------------------------------

  predicate Wakes(p: Proc, chan: nat) {
    p.state == Sleeping && p.chan == chan
  }

  /** m is the least of 0 and the virtual runtimes of the processes k compares with: those that compete already and
      those woken before it. */
  ghost predicate LeastBefore(ps: seq<Proc>, ps': seq<Proc>, chan: nat, k: nat, m: int) {
    && |ps'| == |ps| && k < |ps|
    && m <= 0 && (forall j :: 0 <= j < |ps| && Before(ps, chan, k, j) ==> m <= ps'[j].vruntime)
    && (m == 0 || exists j :: 0 <= j < |ps| && Before(ps, chan, k, j) && m == ps'[j].vruntime)
  }

  predicate Before(ps: seq<Proc>, chan: nat, k: nat, j: nat)
    requires j < |ps|
  {
    Competing(ps[j]) || (j < k && Wakes(ps[j], chan))
  }

  predicate Alone(ps: seq<Proc>, chan: nat, k: nat) {
    forall j: nat | j < |ps| :: !Before(ps, chan, k, j)
  }

  /** What wakeup1 does to the process in slot k. */
  ghost predicate WokenOk(ps: seq<Proc>, ps': seq<Proc>, chan: nat, k: nat)
    requires |ps'| == |ps| && k < |ps|
  {
    if !Wakes(ps[k], chan) then ps'[k] == ps[k]
    else
      && ps'[k] == ps[k].(state := Runnable, vruntime := ps'[k].vruntime)
      && (Alone(ps, chan, k) ==> ps'[k].vruntime == 0)
      && (!Alone(ps, chan, k) ==>
            exists m: int ::
              LeastBefore(ps, ps', chan, k, m) && ps'[k].vruntime == Clamp(m - WakeBonus(ps[k].priority)))
  }

  /** A woken process goes ahead of everybody it is compared with. */
  lemma WokenGoesFirst(ps: seq<Proc>, ps': seq<Proc>, chan: nat, k: nat, j: nat)
    requires k < |ps| == |ps'| && j < |ps| && WokenOk(ps, ps', chan, k) && Wakes(ps[k], chan) && Before(ps, chan, k, j)
    ensures ps'[k].vruntime < ps'[j].vruntime || ps'[k].vruntime == MINIMUM_INT
  {
    assert !Alone(ps, chan, k);
    var m: int :| LeastBefore(ps, ps', chan, k, m) && ps'[k].vruntime == Clamp(m - WakeBonus(ps[k].priority));
  }

  /** It lands one tick ahead of the least of them exactly if that least is not positive, since the minimum search
      starts from 0 and not from a virtual runtime. */
  lemma WokenOneTickAheadIff(ps: seq<Proc>, ps': seq<Proc>, chan: nat, k: nat, least: Int32)
    requires k < |ps| == |ps'| && WokenOk(ps, ps', chan, k) && Wakes(ps[k], chan)
    requires exists j: nat :: j < |ps| && Before(ps, chan, k, j) && ps'[j].vruntime == least
    requires forall j: nat :: j < |ps| && Before(ps, chan, k, j) ==> least <= ps'[j].vruntime
    ensures ps'[k].vruntime == Clamp(least - WakeBonus(ps[k].priority)) <==> least <= 0
  {
    var j: nat :| j < |ps| && Before(ps, chan, k, j) && ps'[j].vruntime == least;
    assert !Alone(ps, chan, k);
    var m: int :| LeastBefore(ps, ps', chan, k, m) && ps'[k].vruntime == Clamp(m - WakeBonus(ps[k].priority));
    assert m <= least;
  }

  // ---- which wakeups keep the bound --------------------------------------------------------------------------------

  predicate AnyCompeting(ps: seq<Proc>) {
    exists i: nat | i < |ps| :: Competing(ps[i])
  }

  /** The least of 0 and the competing virtual runtimes. */
  function LeastOrZero(ps: seq<Proc>): (m: int)
    ensures MINIMUM_INT <= m <= 0
  {
    if ps == [] then 0
    else
      var m, last := LeastOrZero(ps[..|ps| - 1]), ps[|ps| - 1];
      if Competing(last) && last.vruntime < m then last.vruntime else m
  }

  lemma {:induction false} LeastOrZeroIs(ps: seq<Proc>)
    ensures forall i :: 0 <= i < |ps| && Competing(ps[i]) ==> LeastOrZero(ps) <= ps[i].vruntime
    ensures LeastOrZero(ps) == 0 || exists i :: 0 <= i < |ps| && Competing(ps[i]) && ps[i].vruntime == LeastOrZero(ps)
  {
    if ps != [] {
      var before := ps[..|ps| - 1];
      LeastOrZeroIs(before);
      assert forall i :: 0 <= i < |before| ==> before[i] == ps[i];
      if i :| 0 <= i < |before| && Competing(before[i]) && before[i].vruntime == LeastOrZero(before) {
        assert Competing(ps[i]);
      }
    }
  }

  /** The greatest competing f, 0 if nobody competes. */
  function Greatest(ps: seq<Proc>, f: Proc -> int): int {
    if ps == [] then 0
    else
      var before, last := ps[..|ps| - 1], ps[|ps| - 1];
      if !Competing(last) then Greatest(before, f)
      else if !AnyCompeting(before) || f(last) > Greatest(before, f) then f(last)
      else Greatest(before, f)
  }

  lemma {:induction false} GreatestIs(ps: seq<Proc>, f: Proc -> int)
    ensures forall i :: 0 <= i < |ps| && Competing(ps[i]) ==> f(ps[i]) <= Greatest(ps, f)
    ensures AnyCompeting(ps) ==> exists i :: 0 <= i < |ps| && Competing(ps[i]) && f(ps[i]) == Greatest(ps, f)
    ensures !AnyCompeting(ps) ==> Greatest(ps, f) == 0
  {
    if ps != [] {
      var before := ps[..|ps| - 1];
      GreatestIs(before, f);
      assert forall i :: 0 <= i < |before| ==> before[i] == ps[i];
      if i :| 0 <= i < |before| && Competing(before[i]) && f(before[i]) == Greatest(before, f) {
        assert Competing(ps[i]);
      }
      assert AnyCompeting(before) ==> AnyCompeting(ps);
    }
  }

  /** The bonuses of the processes woken below slot k, but for one woken with nobody to compare with. */
  function Bonuses(ps: seq<Proc>, chan: nat, k: nat): nat
    requires k <= |ps|
  {
    if k == 0 then 0
    else Bonuses(ps, chan, k - 1)
         + if Wakes(ps[k - 1], chan) && !Alone(ps, chan, k - 1) then WakeBonus(ps[k - 1].priority) else 0
  }

  lemma {:induction false} BonusesGrow(ps: seq<Proc>, chan: nat, j: nat, k: nat)
    requires j <= k <= |ps|
    ensures Bonuses(ps, chan, j) <= Bonuses(ps, chan, k)
    decreases k
  {
    if j < k {
      BonusesGrow(ps, chan, j, k - 1);
    }
  }

  /** The last process woken below slot k, if any. */
  lemma {:induction false} LastWoken(ps: seq<Proc>, chan: nat, k: nat) returns (j: nat)
    requires k <= |ps|
    ensures j < k ==> Wakes(ps[j], chan) && Bonuses(ps, chan, j + 1) == Bonuses(ps, chan, k)
    ensures j >= k ==> Bonuses(ps, chan, k) == 0 && forall i :: 0 <= i < k ==> !Wakes(ps[i], chan)
    decreases k
  {
    if k == 0 {
      j := 0;
    } else if Wakes(ps[k - 1], chan) {
      j := k - 1;
    } else {
      j := LastWoken(ps, chan, k - 1);
      if j >= k - 1 {
        j := k;
      }
    }
  }

  ghost predicate AllWoken(ps: seq<Proc>, ps': seq<Proc>, chan: nat) {
    |ps'| == |ps| && forall k: nat :: k < |ps| ==> WokenOk(ps, ps', chan, k)
  }

  lemma CompetitorStays(ps: seq<Proc>, ps': seq<Proc>, chan: nat, j: nat)
    requires AllWoken(ps, ps', chan) && j < |ps|
    ensures Competing(ps[j]) ==> ps'[j] == ps[j]
    ensures Competing(ps'[j]) <==> Competing(ps[j]) || Wakes(ps[j], chan)
    ensures Wakes(ps[j], chan) ==> ps'[j].state == Runnable
  {
    assert WokenOk(ps, ps', chan, j);
  }

  lemma AloneFacts(ps: seq<Proc>, chan: nat, k: nat)
    requires Alone(ps, chan, k) && k <= |ps|
    ensures LeastOrZero(ps) == 0 && forall i :: 0 <= i < k ==> !Wakes(ps[i], chan)
  {
    LeastOrZeroIs(ps);
    forall i | 0 <= i < |ps|
      ensures !Competing(ps[i]) && (i < k ==> !Wakes(ps[i], chan))
    {
      assert !Before(ps, chan, k, i);
    }
  }

  /** What wakeup1 leaves in slot k, in terms of the table before. */
  lemma {:induction false} WokenValue(ps: seq<Proc>, ps': seq<Proc>, chan: nat, k: nat)
    requires AllWoken(ps, ps', chan) && k < |ps| && Wakes(ps[k], chan)
    ensures ps'[k].vruntime == Clamp(LeastOrZero(ps) - Bonuses(ps, chan, k + 1))
    decreases k
  {
    hide LeastOrZero, WakeBonus;
    assert WokenOk(ps, ps', chan, k);
    LeastOrZeroIs(ps);
    var last := LastWoken(ps, chan, k);
    if Alone(ps, chan, k) {
      AloneFacts(ps, chan, k);
    } else {
      var m: int :| LeastBefore(ps, ps', chan, k, m) && ps'[k].vruntime == Clamp(m - WakeBonus(ps[k].priority));
      var low := Clamp(LeastOrZero(ps) - Bonuses(ps, chan, k));
      forall j: nat | j < |ps| && Before(ps, chan, k, j)
        ensures low <= ps'[j].vruntime
      {
        CompetitorStays(ps, ps', chan, j);
        if !Competing(ps[j]) {
          WokenValue(ps, ps', chan, j);
          BonusesGrow(ps, chan, j + 1, k);
        }
      }
      LeastIsLow(ps, ps', chan, k, m, last);
    }
  }

  lemma LeastIsLow(ps: seq<Proc>, ps': seq<Proc>, chan: nat, k: nat, m: int, last: nat)
    requires AllWoken(ps, ps', chan) && k < |ps| && Wakes(ps[k], chan) && LeastBefore(ps, ps', chan, k, m)
    requires last < k ==> Wakes(ps[last], chan) && Bonuses(ps, chan, last + 1) == Bonuses(ps, chan, k)
    requires last >= k ==> Bonuses(ps, chan, k) == 0
    ensures m <= Clamp(LeastOrZero(ps) - Bonuses(ps, chan, k))
    decreases k, 0
  {
    hide LeastOrZero, WakeBonus, Bonuses;
    LeastOrZeroIs(ps);
    if last < k {
      WokenValue(ps, ps', chan, last);
      assert Before(ps, chan, k, last);
    } else if LeastOrZero(ps) != 0 {
      var i :| 0 <= i < |ps| && Competing(ps[i]) && ps[i].vruntime == LeastOrZero(ps);
      CompetitorStays(ps, ps', chan, i);
      assert Before(ps, chan, k, i);
    }
  }

  /** The lowest virtual runtime a wakeup hands out. */
  function Lowest(ps: seq<Proc>, chan: nat): Int32 {
    Clamp(LeastOrZero(ps) - Bonuses(ps, chan, |ps|))
  }

  /** After a wakeup the lowest competing virtual runtime is that of the process woken last. */
  lemma LowestIs(ps: seq<Proc>, ps': seq<Proc>, chan: nat)
    requires AllWoken(ps, ps', chan) && exists k: nat :: k < |ps| && Wakes(ps[k], chan)
    ensures forall j :: 0 <= j < |ps| && Competing(ps'[j]) ==> Lowest(ps, chan) <= ps'[j].vruntime
    ensures exists j :: 0 <= j < |ps| && Competing(ps'[j]) && ps'[j].vruntime == Lowest(ps, chan)
  {
    hide LeastOrZero, Bonuses, WokenOk;
    LeastOrZeroIs(ps);
    forall j: nat | j < |ps| && Competing(ps'[j])
      ensures Lowest(ps, chan) <= ps'[j].vruntime
    {
      CompetitorStays(ps, ps', chan, j);
      if Wakes(ps[j], chan) {
        WokenValue(ps, ps', chan, j);
        BonusesGrow(ps, chan, j + 1, |ps|);
      }
    }
    var last := LastWoken(ps, chan, |ps|);
    WokenValue(ps, ps', chan, last);
    CompetitorStays(ps, ps', chan, last);
  }

  /** f measures woken processes by their virtual runtime, and nobody by less. */
  ghost predicate Measures(f: Proc -> int) {
    forall p: Proc :: f(p) >= p.vruntime && (p.state == Runnable ==> f(p) == p.vruntime)
  }

  /** The greatest one stays the greatest, or the first process woken is, at 0. */
  lemma GreatestStays(ps: seq<Proc>, ps': seq<Proc>, chan: nat, f: Proc -> int)
    requires AllWoken(ps, ps', chan) && Measures(f) && exists k: nat :: k < |ps| && Wakes(ps[k], chan)
    ensures forall i :: 0 <= i < |ps| && Competing(ps'[i]) ==> f(ps'[i]) <= Greatest(ps, f)
    ensures exists i :: 0 <= i < |ps| && Competing(ps'[i]) && f(ps'[i]) == Greatest(ps, f)
  {
    hide LeastOrZero, Greatest, WokenOk;
    GreatestIs(ps, f);
    LeastOrZeroIs(ps);
    forall i: nat | i < |ps| && Competing(ps'[i])
      ensures f(ps'[i]) <= Greatest(ps, f)
    {
      CompetitorStays(ps, ps', chan, i);
      if Wakes(ps[i], chan) {
        WokenValue(ps, ps', chan, i);
        if AnyCompeting(ps) {
          var j: nat :| j < |ps| && Competing(ps[j]);
          assert ps'[i].vruntime <= ps[j].vruntime <= f(ps[j]);
        }
      }
    }
    if AnyCompeting(ps) {
      var i :| 0 <= i < |ps| && Competing(ps[i]) && f(ps[i]) == Greatest(ps, f);
      CompetitorStays(ps, ps', chan, i);
    } else {
      var k := FirstWoken(ps, chan);
      CompetitorStays(ps, ps', chan, k);
      assert WokenOk(ps, ps', chan, k);
      FirstIsZero(ps, ps', chan, k);
    }
  }

  lemma FirstWoken(ps: seq<Proc>, chan: nat) returns (k: nat)
    requires exists k: nat :: k < |ps| && Wakes(ps[k], chan)
    ensures k < |ps| && Wakes(ps[k], chan) && forall i :: 0 <= i < k ==> !Wakes(ps[i], chan)
  {
    k := 0;
    while !Wakes(ps[k], chan)
      invariant k < |ps| && forall i :: 0 <= i < k ==> !Wakes(ps[i], chan)
      invariant exists i: nat :: k <= i < |ps| && Wakes(ps[i], chan)
      decreases |ps| - k
    {
      k := k + 1;
    }
  }

  lemma FirstIsZero(ps: seq<Proc>, ps': seq<Proc>, chan: nat, k: nat)
    requires k < |ps| == |ps'| && WokenOk(ps, ps', chan, k) && Wakes(ps[k], chan) && !AnyCompeting(ps)
    requires forall i :: 0 <= i < k ==> !Wakes(ps[i], chan)
    ensures ps'[k].vruntime == 0
  {
    assert Alone(ps, chan, k);
  }

  /** When a wakeup that wakes anybody leaves competing processes within SPREAD of each other, read off the table
      before it: exactly if the greatest competing value, 0 if nobody competes, is at most SPREAD above the lowest
      handed out. */
  lemma WakeupKeepsIff(ps: seq<Proc>, ps': seq<Proc>, chan: nat, f: Proc -> int)
    requires AllWoken(ps, ps', chan) && Measures(f)
    ensures (exists k: nat :: k < |ps| && Wakes(ps[k], chan)) ==>
              (Within(ps', f) <==> Greatest(ps, f) - Lowest(ps, chan) <= SPREAD)
    ensures (forall k: nat :: k < |ps| ==> !Wakes(ps[k], chan)) ==> ps' == ps
  {
    hide Greatest, Lowest, WokenOk, Measures;
    if exists k: nat :: k < |ps| && Wakes(ps[k], chan) {
      LowestIs(ps, ps', chan);
      GreatestStays(ps, ps', chan, f);
    } else {
      forall k: nat | k < |ps|
        ensures ps'[k] == ps[k]
      {
        Untouched(ps, ps', chan, k);
      }
    }
  }

  lemma Untouched(ps: seq<Proc>, ps': seq<Proc>, chan: nat, k: nat)
    requires k < |ps| == |ps'| && WokenOk(ps, ps', chan, k) && !Wakes(ps[k], chan)
    ensures ps'[k] == ps[k]
  {
  }

  /** The condition, as the scheduler's caller could test it. */
  predicate WakeupKeeps(ps: seq<Proc>, chan: nat, f: Proc -> int) {
    (exists k: nat | k < |ps| :: Wakes(ps[k], chan)) ==> Greatest(ps, f) - Lowest(ps, chan) <= SPREAD
  }

  /** Competing virtual runtimes within SPREAD of each other still are after wakeup1 exactly under the condition. */
  lemma WakeupKeepsSpreadIff(ps: seq<Proc>, ps': seq<Proc>, chan: nat)
    requires AllWoken(ps, ps', chan) && Within(ps, Vruntime)
    ensures Within(ps', Vruntime) <==> WakeupKeeps(ps, chan, Vruntime)
  {
    hide Within, Greatest, Lowest, WokenOk;
    WakeupKeepsIff(ps, ps', chan, Vruntime);
  }

  /** So is the room that the running process needs for the rest of its slice. */
  lemma WakeupKeepsFairIff(ps: seq<Proc>, ps': seq<Proc>, chan: nat, current: int, nextpid: nat)
    requires AllWoken(ps, ps', chan) && Fair(ps, current, nextpid)
    ensures Fair(ps', current, nextpid) <==> WakeupKeeps(ps, chan, Reach)
  {
    ShapeWoken(ps, ps', chan, current, nextpid);
    hide Within, Greatest, Lowest, WokenOk, Shape;
    WakeupKeepsIff(ps, ps', chan, Reach);
  }

  lemma ShapeWoken(ps: seq<Proc>, ps': seq<Proc>, chan: nat, current: int, nextpid: nat)
    requires AllWoken(ps, ps', chan) && Shape(ps, current, nextpid)
    ensures Shape(ps', current, nextpid)
  {
    forall k: nat | k < |ps|
      ensures ps'[k].pid == ps[k].pid && (ps'[k].state == Unused <==> ps[k].state == Unused)
      ensures ps'[k].state == Running <==> ps[k].state == Running
      ensures ps[k].state == Running ==> ps'[k] == ps[k]
    {
      assert WokenOk(ps, ps', chan, k);
    }
  }

  /** A process that runs at nice 0 with virtual runtime v and one asleep: waking it keeps the bound up to a point and
      no further, since wakeup1 counts from 0. */
  lemma WakeupOfOne(v: Int32, ps': seq<Proc>)
    requires v >= 0
    requires AllWoken([Proc(Running, 1, 0, 0, v, 0, 10000), Proc(Sleeping, 2, 7, 0, v, 0, 10000)], ps', 7)
    ensures Within(ps', Vruntime) <==> v + 1000 <= SPREAD
  {
    var ps := [Proc(Running, 1, 0, 0, v, 0, 10000), Proc(Sleeping, 2, 7, 0, v, 0, 10000)];
    assert Weight(0) == 1024 && ps[..1] == [ps[0]] && ps[..1][..0] == [];
    assert Before(ps, 7, 1, 0) && Wakes(ps[1], 7);
    assert WakeBonus(0) == 1000 && !Alone(ps, 7, 1);
    assert Bonuses(ps, 7, 0) == 0 && Bonuses(ps, 7, 1) == 0 && Bonuses(ps, 7, 2) == 1000;
    LeastOrZeroIs(ps);
    assert Greatest(ps, Vruntime) == Greatest(ps[..1], Vruntime) == v;
    WakeupKeepsIff(ps, ps', 7, Vruntime);
  }

  /** With nobody to compare with, each process woken lands one bonus below the one before: at nice 5, eleven at most.
      */
  lemma WakeupOfMany(ps: seq<Proc>, ps': seq<Proc>, chan: nat)
    requires AllWoken(ps, ps', chan)
    requires forall k: nat :: k < |ps| ==> Wakes(ps[k], chan) && ps[k].priority == 5
    ensures Within(ps', Vruntime) <==> |ps| <= 11
  {
    if |ps| == 0 {
      assert |ps'| == 0;
    } else {
      assert !AnyCompeting(ps);
      GreatestIs(ps, Vruntime);
      LeastOrZeroIs(ps);
      BonusesOfMany(ps, chan, |ps|);
      assert Wakes(ps[0], chan);
      WakeupKeepsIff(ps, ps', chan, Vruntime);
    }
  }

  lemma {:induction false} BonusesOfMany(ps: seq<Proc>, chan: nat, k: nat)
    requires k <= |ps| && forall k: nat :: k < |ps| ==> Wakes(ps[k], chan) && ps[k].priority == 5
    ensures Bonuses(ps, chan, k) == if k == 0 then 0 else (k - 1) * 3056
  {
    if k > 0 {
      BonusesOfMany(ps, chan, k - 1);
      assert WakeBonus(5) == 3056;
      if k > 1 {
        assert Before(ps, chan, k - 1, 0);
      } else {
        assert forall j: nat :: j < |ps| ==> Wakes(ps[j], chan) && !Before(ps, chan, 0, j);
      }
    }
  }

  /** kill makes a sleeping process compete with the virtual runtime it has: the bound survives exactly if that is
      within SPREAD of everybody. */
  predicate KillKeeps(ps: seq<Proc>, k: nat)
    requires k < |ps|
  {
    ps[k].state == Sleeping ==>
      forall j: nat | j < |ps| && Competing(ps[j]) ::
        Reach(ps[j]) - ps[k].vruntime <= SPREAD && ps[k].vruntime - ps[j].vruntime <= SPREAD
  }

  lemma KillKeepsFairIff(ps: seq<Proc>, k: nat, current: int, nextpid: nat)
    requires Fair(ps, current, nextpid) && k < |ps|
    ensures var ps' := if ps[k].state == Sleeping then ps[k := ps[k].(state := Runnable)] else ps;
            Fair(ps', current, nextpid) <==> KillKeeps(ps, k)
  {
    if ps[k].state == Sleeping {
      var ps' := ps[k := ps[k].(state := Runnable)];
      assert Reach(ps'[k]) == ps'[k].vruntime;
      if Within(ps', Reach) {
        forall j: nat | j < |ps| && Competing(ps[j])
          ensures Reach(ps[j]) - ps[k].vruntime <= SPREAD && ps[k].vruntime - ps[j].vruntime <= SPREAD
        {
          assert ps'[j] == ps[j] && Competing(ps'[j]) && Competing(ps'[k]);
        }
      }
    }
  }

  /** The processes that compete while wakeup1 is at slot p. */
  lemma ComparedWith(ps: seq<Proc>, ps': seq<Proc>, chan: nat, p: nat)
    requires p < |ps| == |ps'| && Wakes(ps[p], chan)
    requires forall k: nat :: k < p ==> WokenOk(ps, ps', chan, k)
    requires forall k :: p <= k < |ps| ==> ps'[k] == ps[k]
    ensures forall j: nat :: j < |ps| && j != p ==> (Competing(ps'[j]) <==> Before(ps, chan, p, j))
  {
    forall j: nat | j < |ps| && j != p
      ensures Competing(ps'[j]) <==> Before(ps, chan, p, j)
    {
      if j < p {
        assert WokenOk(ps, ps', chan, j);
      }
    }
  }

  lemma StillAccompanied(ps: seq<Proc>, chan: nat, k: nat)
    ensures Alone(ps, chan, k + 1) ==> Alone(ps, chan, k)
  {
    if Alone(ps, chan, k + 1) {
      forall j: nat | j < |ps|
        ensures !Before(ps, chan, k, j)
      {
        assert !Before(ps, chan, k + 1, j);
      }
    }
  }

  /** Waking slot p does not touch what held for the slots before. */
  lemma WokenFrame(ps: seq<Proc>, ps1: seq<Proc>, ps2: seq<Proc>, chan: nat, p: nat)
    requires p < |ps| == |ps1| == |ps2| && Wakes(ps[p], chan) && ps2 == ps1[p := ps2[p]]
    requires forall k: nat :: k < p ==> WokenOk(ps, ps1, chan, k)
    ensures forall k: nat :: k < p ==> WokenOk(ps, ps2, chan, k)
  {
    forall k: nat | k < p
      ensures WokenOk(ps, ps2, chan, k)
    {
      assert WokenOk(ps, ps1, chan, k);
      if Wakes(ps[k], chan) && !Alone(ps, chan, k) {
        var m: int :| LeastBefore(ps, ps1, chan, k, m) && ps1[k].vruntime == Clamp(m - WakeBonus(ps[k].priority));
        assert LeastBefore(ps, ps2, chan, k, m);
      }
    }
  }

  /** The table ps' and wakeup1's variables when the slots before p are done. */
  ghost predicate Woken(ps: seq<Proc>, ps': seq<Proc>, chan: nat, p: nat, notempty: bool, minimum: Int32) {
    && |ps'| == |ps| && p <= |ps| && minimum <= 0
    && (forall k: nat :: k < p ==> WokenOk(ps, ps', chan, k))
    && (forall k :: p <= k < |ps| ==> ps'[k] == ps[k])
    && (minimum == 0 || exists j: nat :: j < |ps| && Before(ps, chan, p, j) && minimum == ps'[j].vruntime)
    && (forall j: nat :: j < |ps| && Competing(ps[j]) ==> minimum <= ps'[j].vruntime)
    && (notempty ==> !Alone(ps, chan, p))
  }

  lemma StillWoken(ps: seq<Proc>, ps': seq<Proc>, chan: nat, p: nat, notempty: bool, minimum: Int32)
    requires Woken(ps, ps', chan, p, notempty, minimum) && p < |ps| && !Wakes(ps'[p], chan)
    ensures Woken(ps, ps', chan, p + 1, notempty, minimum)
  {
    StillAccompanied(ps, chan, p);
    if j: nat :| j < |ps| && Before(ps, chan, p, j) && minimum == ps'[j].vruntime {
      assert Before(ps, chan, p + 1, j);
    }
  }

  /** What the scan of the processes other than p comes to. */
  ghost predicate Scanned(ps: seq<Proc>, p: nat, notempty0: bool, minimum0: int, notempty: bool, minimum: int) {
    && (notempty <==> notempty0 || exists j: nat :: j < |ps| && j != p && Competing(ps[j]))
    && minimum <= minimum0 && (forall j: nat :: j < |ps| && j != p && Competing(ps[j]) ==> minimum <= ps[j].vruntime)
    && (minimum == minimum0 || exists j: nat :: j < |ps| && j != p && Competing(ps[j]) && minimum == ps[j].vruntime)
  }

  lemma ScannedElsewhere(ps: seq<Proc>, ps': seq<Proc>, p: nat, notempty0: bool, minimum0: int, notempty: bool,
                         minimum: int)
    requires |ps| == |ps'| && forall j: nat :: j < |ps| && j != p ==> ps[j] == ps'[j]
    requires Scanned(ps, p, notempty0, minimum0, notempty, minimum)
    ensures Scanned(ps', p, notempty0, minimum0, notempty, minimum)
  {
    if j: nat :| j < |ps| && j != p && Competing(ps[j]) {
      assert Competing(ps'[j]);
    }
    if j: nat :| j < |ps| && j != p && Competing(ps[j]) && minimum == ps[j].vruntime {
      assert Competing(ps'[j]) && minimum == ps'[j].vruntime;
    }
    assert forall j: nat :: j < |ps'| && j != p ==> ps'[j] == ps[j];
  }

  lemma WokenNext(ps: seq<Proc>, ps1: seq<Proc>, ps2: seq<Proc>, chan: nat, p: nat,
                  notempty0: bool, minimum0: Int32, notempty: bool, minimum: Int32)
    requires Woken(ps, ps1, chan, p, notempty0, minimum0) && p < |ps| == |ps2| && Wakes(ps[p], chan)
    requires ps2 == ps1[p := ps[p].(state := Runnable, vruntime := ps2[p].vruntime)]
    requires forall j: nat :: j < |ps| && j != p ==> (Competing(ps1[j]) <==> Before(ps, chan, p, j))
    requires Scanned(ps1, p, notempty0, minimum0, notempty, minimum)
    requires ps2[p].vruntime == if notempty then Clamp(minimum - WakeBonus(ps[p].priority)) else 0
    ensures Woken(ps, ps2, chan, p + 1, notempty, minimum)
  {
    hide WakeBonus, Clamp;
    assert !Before(ps, chan, p, p);
    WokenFrame(ps, ps1, ps2, chan, p);
    StillAccompanied(ps, chan, p);
    if minimum != 0 {
      var j: nat :| j < |ps| && Before(ps, chan, p, j) && minimum == ps1[j].vruntime;
      assert j != p && ps2[j] == ps1[j] && Before(ps, chan, p + 1, j);
    }
    forall j: nat | j < |ps| && Before(ps, chan, p, j)
      ensures j != p && minimum <= ps2[j].vruntime
    {
    }
    assert LeastBefore(ps, ps2, chan, p, minimum);
    assert notempty <==> !Alone(ps, chan, p);
    assert WokenOk(ps, ps2, chan, p);
  }
}
