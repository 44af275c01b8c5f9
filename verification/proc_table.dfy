/** fork, exit, wait, sleep, wakeup and kill over the process table (proc.c).  Each method is one section under
    ptable.lock: a process in wait runs a section from entry or wakeup to its next sleep or its return. */
module ProcTable {

  datatype State = Unused | Embryo | Sleeping | Runnable | Running | Zombie

  /** What a process sleeps on: a process, as wait does, or some other address. */
  datatype Chan = OfProc(p: nat) | Other(address: nat)

  /** parent is a slot, -1 for none; maker is the slot of the process that is creating an embryo. */
  datatype Proc = Proc(state: State, pid: nat, parent: int, chan: Chan, killed: bool, maker: nat)

  predicate InUse(p: Proc) {
    p.state != Unused && p.state != Embryo
  }

  predicate CanHaveChildren(p: Proc) {
    InUse(p) && p.state != Zombie
  }

  predicate IsChild(ps: seq<Proc>, me: nat, i: nat) {
    i < |ps| && ps[i].parent == me
  }

  ghost predicate HasChild(ps: seq<Proc>, me: nat) {
    exists i: nat :: IsChild(ps, me, i)
  }

  predicate IsZombie(ps: seq<Proc>, me: nat, i: nat) {
    IsChild(ps, me, i) && ps[i].state == Zombie
  }

  ghost predicate HasZombie(ps: seq<Proc>, me: nat) {
    exists i: nat :: IsZombie(ps, me, i)
  }

  // ---- effects ----------------------------------------------------------------------------------------------------

  function Woken(p: Proc, c: Chan): Proc {
    if p.state == Sleeping && p.chan == c then p.(state := Runnable) else p
  }

  function WokenAll(ps: seq<Proc>, c: Chan): (r: seq<Proc>)
    ensures |r| == |ps|
  {
    seq(|ps|, i requires 0 <= i < |ps| => Woken(ps[i], c))
  }

  /** Being switched in, and giving up the processor. */
  predicate CanSwitch(from: State, to: State) {
    (from == Runnable && to == Running) || (from == Running && (to == Runnable || to == Sleeping))
  }

  function Adopted(p: Proc, me: nat, init: nat): Proc {
    if p.parent == me then p.(parent := init) else p
  }

  /** Slot i after exit of process me. */
  ghost function ExitedSlot(ps: seq<Proc>, me: nat, init: nat, i: nat): Proc
    requires me < |ps| && i < |ps| && ps[me].parent >= 0
  {
    if i == me then ps[me].(state := Zombie)
    else
      var p := Adopted(Woken(ps[i], OfProc(ps[me].parent)), me, init);
      if HasZombie(ps, me) then Woken(p, OfProc(init)) else p
  }

  ghost predicate Exited(ps: seq<Proc>, qs: seq<Proc>, me: nat, init: nat) {
    && me < |ps| == |qs| && ps[me].parent >= 0 && ps[me].parent != me
    && forall i: nat :: i < |ps| ==> qs[i] == ExitedSlot(ps, me, init, i)
  }

  /** The freed slot of a child that has been waited for. */
  function Reaped(p: Proc): Proc {
    p.(state := Unused, pid := 0, parent := -1, killed := false)
  }

  // ---- invariants -------------------------------------------------------------------------------------------------

  /** Every process but init has a parent that can wait for it. */
  ghost predicate ParentOk(ps: seq<Proc>, init: nat, i: nat) {
    i < |ps| ==>
      if i == init then CanHaveChildren(ps[i]) && ps[i].parent == -1
      else if InUse(ps[i]) then 0 <= ps[i].parent < |ps| && ps[i].parent != i && CanHaveChildren(ps[ps[i].parent])
      else ps[i].parent == -1
  }

  ghost predicate Parented(ps: seq<Proc>, init: nat) {
    init < |ps| && forall i: nat :: ParentOk(ps, init, i)
  }

  /** Whoever sleeps in wait has a child, and no child that has exited. */
  ghost predicate SleepOk(ps: seq<Proc>, i: nat) {
    i < |ps| && ps[i].state == Sleeping && ps[i].chan.OfProc? ==>
      ps[i].chan.p == i && HasChild(ps, i) && !HasZombie(ps, i)
  }

  ghost predicate Waiting(ps: seq<Proc>) {
    forall i: nat :: SleepOk(ps, i)
  }

  /** Zombies have exited and not been waited for; all others have not exited. */
  ghost predicate PidOk(ps: seq<Proc>, nextpid: nat, exits: set<nat>, reaped: set<nat>, i: nat) {
    i < |ps| && ps[i].state != Unused ==>
      ps[i].pid < nextpid && (ps[i].pid in exits <==> ps[i].state == Zombie) && ps[i].pid !in reaped
  }

  predicate ZombieWith(ps: seq<Proc>, pid: nat, i: nat) {
    i < |ps| && ps[i].state == Zombie && ps[i].pid == pid
  }

  /** Process identifiers are unique, and no zombie is lost. */
  ghost predicate Accounted(ps: seq<Proc>, nextpid: nat, exits: set<nat>, reaped: set<nat>) {
    && (forall i: nat :: PidOk(ps, nextpid, exits, reaped, i))
    && (forall i, j :: 0 <= i < j < |ps| && ps[i].state != Unused && ps[j].state != Unused ==> ps[i].pid != ps[j].pid)
    && reaped <= exits && (forall pid :: pid in exits ==> pid < nextpid)
    && (forall pid :: pid in exits && pid !in reaped ==> exists i: nat :: ZombieWith(ps, pid, i))
  }

  /** A change that leaves parents, identifiers and everybody's being alive, a zombie or unused as they are. */
  ghost predicate SameFamily(ps: seq<Proc>, qs: seq<Proc>) {
    && |qs| == |ps|
    && forall i: nat :: i < |ps| ==> SameKind(ps[i], qs[i])
  }

  predicate SameKind(p: Proc, q: Proc) {
    && q.parent == p.parent && q.pid == p.pid && InUse(q) == InUse(p)
    && (q.state == Zombie <==> p.state == Zombie) && (q.state == Unused <==> p.state == Unused)
  }

  lemma FamilyKeeps(ps: seq<Proc>, qs: seq<Proc>, init: nat, nextpid: nat, exits: set<nat>, reaped: set<nat>)
    requires SameFamily(ps, qs) && Parented(ps, init) && Accounted(ps, nextpid, exits, reaped)
    ensures Parented(qs, init) && Accounted(qs, nextpid, exits, reaped)
  {
    forall i: nat
      ensures ParentOk(qs, init, i) && PidOk(qs, nextpid, exits, reaped, i)
    {
      assert ParentOk(ps, init, i) && PidOk(ps, nextpid, exits, reaped, i);
    }
    forall pid | pid in exits && pid !in reaped
      ensures exists i: nat :: ZombieWith(qs, pid, i)
    {
      var i: nat :| ZombieWith(ps, pid, i);
      assert ZombieWith(qs, pid, i);
    }
  }

  lemma FamilyChildren(ps: seq<Proc>, qs: seq<Proc>, me: nat)
    requires SameFamily(ps, qs)
    ensures HasChild(qs, me) <==> HasChild(ps, me)
    ensures HasZombie(qs, me) <==> HasZombie(ps, me)
  {
    if i: nat :| IsChild(ps, me, i) { assert IsChild(qs, me, i); }
    if i: nat :| IsChild(qs, me, i) { assert IsChild(ps, me, i); }
    if i: nat :| IsZombie(ps, me, i) { assert IsZombie(qs, me, i); }
    if i: nat :| IsZombie(qs, me, i) { assert IsZombie(ps, me, i); }
  }

  /** Waking, and going to sleep, keep the invariant; in wait only who has a child and no zombie may sleep. */
  lemma FamilyWaiting(ps: seq<Proc>, qs: seq<Proc>)
    requires SameFamily(ps, qs) && Waiting(ps)
    requires forall i: nat :: i < |ps| && qs[i].state == Sleeping && qs[i].chan.OfProc? ==>
               qs[i] == ps[i] || (qs[i].chan.p == i && HasChild(ps, i) && !HasZombie(ps, i))
    ensures Waiting(qs)
  {
    forall i: nat
      ensures SleepOk(qs, i)
    {
      assert SleepOk(ps, i);
      FamilyChildren(ps, qs, i);
    }
  }

  // ---- exit -------------------------------------------------------------------------------------------------------

  /** After exit nobody has me as a parent. */
  lemma ExitedParented(ps: seq<Proc>, qs: seq<Proc>, me: nat, init: nat)
    requires Parented(ps, init) && me != init && Exited(ps, qs, me, init) && ps[me].state == Running
    ensures Parented(qs, init) && !HasChild(qs, me)
  {
    forall i: nat
      ensures ParentOk(qs, init, i) && !IsChild(qs, me, i)
    {
      assert ParentOk(ps, init, i) && ParentOk(ps, init, init);
    }
  }

  /** The parent of the new zombie, and init if it inherits a zombie, are not asleep in wait. */
  lemma ExitedWaiting(ps: seq<Proc>, qs: seq<Proc>, me: nat, init: nat)
    requires Parented(ps, init) && Waiting(ps) && me != init && Exited(ps, qs, me, init) && ps[me].state == Running
    ensures Waiting(qs)
  {
    forall i: nat
      ensures SleepOk(qs, i)
    {
      assert SleepOk(ps, i) && ParentOk(ps, init, me);
      if i < |ps| && qs[i].state == Sleeping && qs[i].chan.OfProc? {
        var k: nat :| IsChild(ps, i, k);
        assert IsChild(qs, i, k);
        forall l: nat
          ensures !IsZombie(qs, i, l)
        {
          assert !IsZombie(ps, i, l) && (IsZombie(ps, me, l) ==> HasZombie(ps, me));
        }
      }
    }
  }

  lemma ExitedAccounted(ps: seq<Proc>, qs: seq<Proc>, me: nat, init: nat, nextpid: nat, exits: set<nat>,
                        reaped: set<nat>)
    requires Exited(ps, qs, me, init) && ps[me].state == Running && Accounted(ps, nextpid, exits, reaped)
    ensures Accounted(qs, nextpid, exits + {ps[me].pid}, reaped) && ps[me].pid !in exits
  {
    var all := exits + {ps[me].pid};
    forall i: nat | i < |ps|
      ensures qs[i].pid == ps[i].pid && (qs[i].state == Unused <==> ps[i].state == Unused)
      ensures i != me ==> (qs[i].state == Zombie <==> ps[i].state == Zombie)
    {
    }
    assert PidOk(ps, nextpid, exits, reaped, me);
    forall i: nat
      ensures PidOk(qs, nextpid, all, reaped, i)
    {
      assert PidOk(ps, nextpid, exits, reaped, i);
    }
    forall pid | pid in all && pid !in reaped
      ensures exists i: nat :: ZombieWith(qs, pid, i)
    {
      if pid == ps[me].pid {
        assert ZombieWith(qs, pid, me);
      } else {
        var i: nat :| ZombieWith(ps, pid, i);
        assert ZombieWith(qs, pid, i);
      }
    }
  }

  // ---- wait -------------------------------------------------------------------------------------------------------

  lemma ReapedKeeps(ps: seq<Proc>, me: nat, k: nat, init: nat)
    requires Parented(ps, init) && Waiting(ps) && IsZombie(ps, me, k) && me < |ps| && ps[me].state == Running
    ensures Parented(ps[k := Reaped(ps[k])], init) && Waiting(ps[k := Reaped(ps[k])])
  {
    var qs := ps[k := Reaped(ps[k])];
    forall i: nat
      ensures ParentOk(qs, init, i) && SleepOk(qs, i)
    {
      assert ParentOk(ps, init, i) && ParentOk(ps, init, k) && SleepOk(ps, i);
      if i < |ps| && qs[i].state == Sleeping && qs[i].chan.OfProc? {
        var c: nat :| IsChild(ps, i, c);
        assert IsChild(qs, i, c);
        if l: nat :| IsZombie(qs, i, l) {
          assert IsZombie(ps, i, l);
        }
      }
    }
  }

  lemma ReapedAccounted(ps: seq<Proc>, k: nat, nextpid: nat, exits: set<nat>, reaped: set<nat>)
    requires k < |ps| && ps[k].state == Zombie && Accounted(ps, nextpid, exits, reaped)
    ensures ps[k].pid in exits && ps[k].pid !in reaped
    ensures Accounted(ps[k := Reaped(ps[k])], nextpid, exits, reaped + {ps[k].pid})
  {
    var qs, all := ps[k := Reaped(ps[k])], reaped + {ps[k].pid};
    assert PidOk(ps, nextpid, exits, reaped, k);
    forall i: nat
      ensures PidOk(qs, nextpid, exits, all, i)
    {
      assert PidOk(ps, nextpid, exits, reaped, i);
    }
    forall pid | pid in exits && pid !in all
      ensures exists i: nat :: ZombieWith(qs, pid, i)
    {
      var i: nat :| ZombieWith(ps, pid, i);
      assert ZombieWith(qs, pid, i);
    }
  }

  // ---- fork -------------------------------------------------------------------------------------------------------

  /** A slot outside the family changes: an embryo is made or given up, or becomes a child of me. */
  lemma SlotFilled(ps: seq<Proc>, k: nat, p: Proc, init: nat)
    requires Parented(ps, init) && Waiting(ps) && k < |ps| && !InUse(ps[k])
    requires if InUse(p) then
               p.state == Runnable && 0 <= p.parent < |ps| && CanHaveChildren(ps[p.parent]) && p.parent != k
             else p.parent == -1
    ensures Parented(ps[k := p], init) && Waiting(ps[k := p])
  {
    var qs := ps[k := p];
    forall i: nat
      ensures ParentOk(qs, init, i) && SleepOk(qs, i)
    {
      assert ParentOk(ps, init, i) && ParentOk(ps, init, k) && SleepOk(ps, i);
      if i < |ps| && qs[i].state == Sleeping && qs[i].chan.OfProc? {
        var c: nat :| IsChild(ps, i, c);
        assert IsChild(qs, i, c);
        if l: nat :| IsZombie(qs, i, l) {
          assert IsZombie(ps, i, l);
        }
      }
    }
  }

  lemma SlotAccounted(ps: seq<Proc>, k: nat, p: Proc, nextpid: nat, next': nat, exits: set<nat>, reaped: set<nat>)
    requires Accounted(ps, nextpid, exits, reaped) && k < |ps| && !InUse(ps[k]) && p.state != Zombie && nextpid <= next'
    requires p.state == Unused || (ps[k].state == Embryo && p.pid == ps[k].pid)
             || (p.pid == nextpid && next' == nextpid + 1)
    ensures Accounted(ps[k := p], next', exits, reaped)
  {
    var qs := ps[k := p];
    assert forall i: nat :: PidOk(ps, nextpid, exits, reaped, i);
    forall i: nat
      ensures PidOk(qs, next', exits, reaped, i)
    {
      assert PidOk(ps, nextpid, exits, reaped, i);
    }
    forall i, j | 0 <= i < j < |qs| && qs[i].state != Unused && qs[j].state != Unused
      ensures qs[i].pid != qs[j].pid
    {
      assert PidOk(ps, nextpid, exits, reaped, i) && PidOk(ps, nextpid, exits, reaped, j);
    }
    forall pid | pid in exits && pid !in reaped
      ensures exists i: nat :: ZombieWith(qs, pid, i)
    {
      var i: nat :| ZombieWith(ps, pid, i);
      assert ZombieWith(qs, pid, i);
    }
  }

  class Table {
    const procs: array<Proc>
    const init: nat
    var nextpid: nat
    ghost var exits: set<nat>    // pids of processes that exited
    ghost var reaped: set<nat>   // pids wait returned

    ghost predicate Valid()
      reads this, procs
    {
      Parented(procs[..], init) && Waiting(procs[..]) && Accounted(procs[..], nextpid, exits, reaped)
    }

    /** An empty table with the first process, as userinit leaves it. */
    constructor (n: nat)
      requires n > 0
      ensures Valid() && procs.Length == n && exits == {} && reaped == {} && init == 0 && fresh(procs)
      ensures forall i :: 0 <= i < n ==> procs[i].state == if i == 0 then Runnable else Unused
      ensures forall i :: 0 <= i < n ==> procs[i].pid == if i == 0 then 1 else 0
    {
      procs := new Proc[n](i => Proc(if i == 0 then Runnable else Unused, if i == 0 then 1 else 0, -1, Other(0), false,
                                     0));
      init, nextpid, exits, reaped := 0, 2, {}, {};
    }

    /** allocproc for a process me in fork: a free slot becomes an embryo. */
    method Allocproc(me: nat) returns (np: int)
      requires Valid() && me < procs.Length
      modifies this`nextpid, procs
      ensures Valid() && -1 <= np < procs.Length
      ensures np == -1 ==>
                && procs[..] == old(procs[..]) && nextpid == old(nextpid)
                && forall i :: 0 <= i < procs.Length ==> procs[i].state != Unused
      ensures np >= 0 ==> old(procs[..])[np].state == Unused && nextpid == old(nextpid) + 1
      ensures np >= 0 ==>
                procs[..] == old(procs[..])[np := old(procs[..])[np].(state := Embryo, pid := old(nextpid),
                                                                      maker := me)]
    {
      var p := 0;
      while p < procs.Length && procs[p].state != Unused
        invariant p <= procs.Length && forall i :: 0 <= i < p ==> procs[i].state != Unused
      {
        p := p + 1;
      }
      if p == procs.Length {
        return -1;
      }
      ghost var ps := procs[..];
      assert ParentOk(ps, init, p);
      SlotFilled(ps, p, procs[p].(state := Embryo, pid := nextpid, maker := me), init);
      SlotAccounted(ps, p, procs[p].(state := Embryo, pid := nextpid, maker := me), nextpid, nextpid + 1, exits,
                    reaped);
      procs[p] := procs[p].(state := Embryo, pid := nextpid, maker := me);
      nextpid := nextpid + 1;
      assert procs[..] == ps[p := procs[p]];
      np := p;
    }

    /** The end of fork by me: its embryo becomes a runnable child, or a free slot again if memory ran out. */
    method FinishFork(me: nat, np: nat, copied: bool) returns (r: int)
      requires Valid() && me < procs.Length && np < procs.Length
      requires procs[me].state == Running && procs[np].state == Embryo && procs[np].maker == me
      modifies procs
      ensures Valid() && r == if copied then procs[np].pid else -1
      ensures procs[..] == old(procs[..])[np := if copied then old(procs[np]).(parent := me, state := Runnable)
                                                else old(procs[np]).(state := Unused)]
    {
      ghost var ps := procs[..];
      assert ParentOk(ps, init, np);
      var p := if copied then procs[np].(parent := me, state := Runnable) else procs[np].(state := Unused);
      SlotFilled(ps, np, p, init);
      SlotAccounted(ps, np, p, nextpid, nextpid, exits, reaped);
      procs[np] := p;
      assert procs[..] == ps[np := p];
      r := if copied then procs[np].pid else -1;
    }

    /** wakeup1. */
    method Wakeup1(c: Chan)
      modifies procs
      ensures procs[..] == WokenAll(old(procs[..]), c)
    {
      var p := 0;
      while p < procs.Length
        invariant p <= procs.Length
        invariant forall j :: 0 <= j < p ==> procs[j] == Woken(old(procs[j]), c)
        invariant forall j :: p <= j < procs.Length ==> procs[j] == old(procs[j])
      {
        procs[p] := Woken(procs[p], c);
        p := p + 1;
      }
    }

    /** wakeup. */
    method Wakeup(c: Chan)
      requires Valid()
      modifies procs
      ensures Valid() && procs[..] == WokenAll(old(procs[..]), c)
    {
      ghost var ps := procs[..];
      Wakeup1(c);
      FamilyKeeps(ps, procs[..], init, nextpid, exits, reaped);
      FamilyWaiting(ps, procs[..]);
    }

    /** The scheduler switches a process in, or it yields, or sleeps elsewhere than in wait. */
    method Switch(p: nat, state: State, address: nat)
      requires Valid() && p < procs.Length
      requires CanSwitch(procs[p].state, state)
      modifies procs
      ensures Valid() && procs[..] == old(procs[..])[p := old(procs[p]).(state := state, chan := Other(address))]
    {
      ghost var ps := procs[..];
      procs[p] := procs[p].(state := state, chan := Other(address));
      assert procs[..] == ps[p := procs[p]];
      FamilyKeeps(ps, procs[..], init, nextpid, exits, reaped);
      FamilyWaiting(ps, procs[..]);
    }

    /** The first process of that pid is marked, and runnable if it slept. */
    static predicate KilledAt(ps: seq<Proc>, qs: seq<Proc>, i: nat, pid: nat)
      requires i < |ps|
    {
      && ps[i].pid == pid && (forall j | 0 <= j < i :: ps[j].pid != pid)
      && qs == ps[i := ps[i].(killed := true, state := if ps[i].state == Sleeping then Runnable else ps[i].state)]
    }

    /** kill. */
    method Kill(pid: nat) returns (r: int)
      requires Valid()
      modifies procs
      ensures Valid()
      ensures r == -1 ==> procs[..] == old(procs[..]) && forall i :: 0 <= i < procs.Length ==> procs[i].pid != pid
      ensures r != -1 ==> r == 0 && exists i :: 0 <= i < procs.Length && KilledAt(old(procs[..]), procs[..], i, pid)
    {
      var p := 0;
      while p < procs.Length
        invariant p <= procs.Length && procs[..] == old(procs[..])
        invariant forall i :: 0 <= i < p ==> procs[i].pid != pid
      {
        if procs[p].pid == pid {
          ghost var ps := procs[..];
          procs[p] := procs[p].(killed := true);
          if procs[p].state == Sleeping {
            procs[p] := procs[p].(state := Runnable);
          }
          assert procs[..] == ps[p := procs[p]];
          FamilyKeeps(ps, procs[..], init, nextpid, exits, reaped);
          KilledWaiting(ps, procs[..], p);
          assert KilledAt(ps, procs[..], p, pid);
          return 0;
        }
        p := p + 1;
      }
      r := -1;
    }

    /** exit, after the files are closed. */
    method Exit(me: nat)
      requires Valid() && me < procs.Length && procs[me].state == Running && me != init
      modifies this`exits, procs
      ensures Valid() && exits == old(exits) + {old(procs[me]).pid} && old(procs[me]).pid !in old(exits)
      ensures Exited(old(procs[..]), procs[..], me, init)
    {
      ghost var ps := procs[..];
      assert ParentOk(ps, init, me);
      Leave(me);
      ExitedParented(ps, procs[..], me, init);
      ExitedWaiting(ps, procs[..], me, init);
      ExitedAccounted(ps, procs[..], me, init, nextpid, exits, reaped);
      exits := exits + {procs[me].pid};
    }

    /** exit's section under the lock: wake the parent, pass the children to init, become a zombie. */
    method Leave(me: nat)
      requires me < procs.Length && procs[me].parent >= 0 && procs[me].parent != me && procs[me].state == Running
      modifies procs
      ensures Exited(old(procs[..]), procs[..], me, init)
    {
      ghost var ps := procs[..];
      Wakeup1(OfProc(procs[me].parent));
      ghost var ps1 := procs[..];
      var p := 0;
      ghost var told := false;
      while p < procs.Length
        invariant p <= procs.Length
        invariant told ==> HasZombie(ps, me)
        invariant !told ==> forall i: nat :: i < p ==> !IsZombie(ps, me, i)
        invariant forall j :: 0 <= j < procs.Length ==> procs[j] == Passed(ps1[j], me, init, j < p, told)
      {
        if procs[p].parent == me {
          procs[p] := procs[p].(parent := init);
          if procs[p].state == Zombie {
            assert IsZombie(ps, me, p);
            Wakeup1(OfProc(init));
            told := true;
          }
        }
        p := p + 1;
      }
      procs[me] := procs[me].(state := Zombie);
    }

    /** An entry during exit's loop: passed on to init if visited, and woken if init has been told. */
    static function Passed(p: Proc, me: nat, init: nat, visited: bool, told: bool): Proc {
      var q := if visited then Adopted(p, me, init) else p;
      if told then Woken(q, OfProc(init)) else q
    }

    /** One pass of wait's loop by process me. */
    method Wait(me: nat) returns (r: int, asleep: bool, ghost k: nat)
      requires Valid() && me < procs.Length && procs[me].state == Running
      modifies this`reaped, procs
      ensures Valid()
      ensures asleep <==> !HasZombie(old(procs[..]), me) && HasChild(old(procs[..]), me) && !old(procs[me]).killed
      ensures asleep ==>
                && r == -1 && reaped == old(reaped)
                && procs[..] == old(procs[..])[me := old(procs[me]).(state := Sleeping, chan := OfProc(me))]
      ensures r >= 0 <==> HasZombie(old(procs[..]), me)
      ensures r < 0 ==> r == -1 && reaped == old(reaped)
      ensures r < 0 && !asleep ==> procs[..] == old(procs[..])
      ensures r >= 0 ==>
                && IsZombie(old(procs[..]), me, k) && r == old(procs[..])[k].pid
                && procs[..] == old(procs[..])[k := Reaped(old(procs[..])[k])]
      ensures r >= 0 ==> r in exits && r !in old(reaped) && reaped == old(reaped) + {r as nat}
    {
      ghost var ps := procs[..];
      var havekids := false;
      var p := 0;
      k := 0;
      while p < procs.Length
        invariant p <= procs.Length && procs[..] == ps
        invariant havekids ==> HasChild(ps, me)
        invariant !havekids ==> forall i: nat :: i < p ==> !IsChild(ps, me, i)
        invariant forall i: nat :: i < p ==> !IsZombie(ps, me, i)
      {
        if procs[p].parent == me {
          assert IsChild(ps, me, p);
          havekids := true;
          if procs[p].state == Zombie {
            assert IsZombie(ps, me, p);
            ReapedKeeps(ps, me, p, init);
            ReapedAccounted(ps, p, nextpid, exits, reaped);
            var pid := procs[p].pid;
            procs[p] := procs[p].(pid := 0, parent := -1, killed := false, state := Unused);
            reaped := reaped + {pid};
            assert procs[..] == ps[p := Reaped(ps[p])];
            return pid, false, p;
          }
        }
        p := p + 1;
      }
      if !havekids || procs[me].killed {
        return -1, false, k;
      }
      procs[me] := procs[me].(state := Sleeping, chan := OfProc(me));
      assert procs[..] == ps[me := procs[me]];
      FamilyKeeps(ps, procs[..], init, nextpid, exits, reaped);
      FamilyWaiting(ps, procs[..]);
      r, asleep := -1, true;
    }
  }

  lemma KilledWaiting(ps: seq<Proc>, qs: seq<Proc>, p: nat)
    requires SameFamily(ps, qs) && Waiting(ps) && p < |ps| && qs == ps[p := qs[p]] && qs[p].state != Sleeping
    ensures Waiting(qs)
  {
    FamilyWaiting(ps, qs);
  }

  /** What processes do, one section at a time. */
  datatype Step =
    | Alloc(me: nat)
    | Finish(me: nat, np: nat, copied: bool)
    | Wakes(c: Chan)
    | Switches(p: nat, state: State, address: nat)
    | Kills(pid: nat) | Exits(me: nat) | Waits(me: nat)

  /** Any interleaving: nobody sleeps in wait over a zombie child, every process has a parent that can wait for it, and
      the pids wait returns are those of exited processes, each returned once. */
  method Run(t: Table, steps: seq<Step>) returns (waited: seq<nat>)
    requires t.Valid()
    modifies t, t.procs
    ensures t.Valid()
    ensures forall i: nat, j: nat ::
              i < t.procs.Length && t.procs[i].state == Sleeping && t.procs[i].chan == OfProc(i) ==>
              !IsZombie(t.procs[..], i, j)
    ensures forall k, l :: 0 <= k < l < |waited| ==> waited[k] != waited[l]
    ensures forall k :: 0 <= k < |waited| ==> waited[k] in t.exits && waited[k] !in old(t.reaped)
  {
    hide Parented, Waiting, Accounted;
    waited := [];
    for s := 0 to |steps|
      invariant t.Valid() && old(t.reaped) <= t.reaped
      invariant forall k :: 0 <= k < |waited| ==>
                waited[k] in t.exits && waited[k] in t.reaped && waited[k] !in old(t.reaped)
      invariant forall k, l :: 0 <= k < l < |waited| ==> waited[k] != waited[l]
    {
      match steps[s]
      case Alloc(me) =>
        if me < t.procs.Length {
          var _ := t.Allocproc(me);
        }
      case Finish(me, np, copied) =>
        if me < t.procs.Length && np < t.procs.Length
           && t.procs[me].state == Running && t.procs[np].state == Embryo && t.procs[np].maker == me {
          var _ := t.FinishFork(me, np, copied);
        }
      case Wakes(c) =>
        t.Wakeup(c);
      case Switches(p, state, address) =>
        if p < t.procs.Length && CanSwitch(t.procs[p].state, state) {
          t.Switch(p, state, address);
        }
      case Kills(pid) =>
        var _ := t.Kill(pid);
      case Exits(me) =>
        if me < t.procs.Length && t.procs[me].state == Running && me != t.init {
          t.Exit(me);
        }
      case Waits(me) =>
        if me < t.procs.Length && t.procs[me].state == Running {
          var r, _, _ := t.Wait(me);
          if r >= 0 {
            waited := waited + [r];
          }
        }
    }
    SleepersFacts(t.procs[..]);
  }

  lemma SleepersFacts(ps: seq<Proc>)
    requires Waiting(ps)
    ensures forall i: nat, j: nat :: i < |ps| && ps[i].state == Sleeping && ps[i].chan == OfProc(i) ==>
              !IsZombie(ps, i, j)
  {
    forall i: nat, j: nat | i < |ps| && ps[i].state == Sleeping && ps[i].chan == OfProc(i)
      ensures !IsZombie(ps, i, j)
    {
      assert SleepOk(ps, i);
    }
  }
}
