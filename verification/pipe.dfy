/** The xv6 pipe (pipe.c): a ring buffer with wrapping 32-bit counters, and the processes inside pipewrite and piperead,
    which run one at a time under the pipe's lock from entry or wakeup to return or sleep, or are killed. */
module Pipes {
  import opened Common

  const PIPESIZE: nat := 512

  /** What a process is doing: nothing here, in pipewrite at byte i of addr, or in piperead for n bytes. */
  datatype Proc = Idle | Writing(addr: seq<Byte>, i: nat, asleep: bool) | Reading(n: nat, asleep: bool)

  /** A system call went to sleep, or returned a number. */
  datatype Outcome = Asleep | Returned(n: int)

  function Min(a: nat, b: nat): nat {
    if a < b then a else b
  }

  /** wakeup on a channel: readers sleep on nread, writers on nwrite. */
  function Woken(p: Proc, readers: bool): Proc {
    match p
    case Idle => Idle
    case Writing(addr, i, _) => if readers then p else Writing(addr, i, false)
    case Reading(n, _) => if readers then Reading(n, false) else p
  }

  function AllWoken(ps: seq<Proc>, readers: bool): (r: seq<Proc>)
    ensures |r| == |ps|
  {
    seq(|ps|, i requires 0 <= i < |ps| => Woken(ps[i], readers))
  }

  predicate AsleepWriting(p: Proc) {
    p.Writing? && p.asleep
  }

  predicate AsleepReading(p: Proc) {
    p.Reading? && p.asleep
  }

  /** With that many bytes in flight, a sleeping writer faces a full pipe somebody may still read, and then no reader
      sleeps; calls in progress hold their end open. */
  ghost predicate SleepersOk(ps: seq<Proc>, flight: int, readopen: bool, writeopen: bool) {
    && (forall j :: 0 <= j < |ps| ==>
          && (ps[j].Writing? ==> writeopen && ps[j].i <= |ps[j].addr|)
          && (ps[j].Reading? ==> readopen)
          && (AsleepWriting(ps[j]) ==> flight == PIPESIZE && readopen && ps[j].i < |ps[j].addr|))
    && forall j, k :: 0 <= j < |ps| && 0 <= k < |ps| ==> !(AsleepWriting(ps[j]) && AsleepReading(ps[k]))
  }

  /** A sleeping reader faces an empty pipe somebody may still write. */
  ghost predicate ReadersOk(ps: seq<Proc>, flight: int, writeopen: bool) {
    forall j :: 0 <= j < |ps| && AsleepReading(ps[j]) ==> flight == 0 && writeopen
  }

  ghost predicate SomeReaderAsleep(ps: seq<Proc>) {
    exists j :: 0 <= j < |ps| && AsleepReading(ps[j])
  }

  /** All readers are awake once pipewrite has woken them, and the writer goes to sleep only on a full pipe. */
  lemma WriteWakes(ps: seq<Proc>, flight: int, flight': int, readopen: bool, writeopen: bool, me: nat, p: Proc)
    requires SleepersOk(ps, flight, readopen, writeopen) && me < |ps| && ps[me].Writing?
             && flight <= flight' <= PIPESIZE
    requires p.Writing? ==> p.i <= |p.addr| && (p.asleep ==> readopen && flight' == PIPESIZE && p.i < |p.addr|)
    requires p.Writing? || p == Idle
    ensures SleepersOk(AllWoken(ps, true)[me := p], flight', readopen, writeopen)
    ensures ReadersOk(AllWoken(ps, true)[me := p], flight', writeopen)
  {
  }

  /** A writer that gives up wakes nobody: no harm unless it put bytes into a pipe in front of which a reader sleeps. */
  lemma WriteGivesUp(ps: seq<Proc>, flight: int, flight': int, readopen: bool, writeopen: bool, me: nat)
    requires SleepersOk(ps, flight, readopen, writeopen) && me < |ps| && ps[me].Writing?
             && flight <= flight' <= PIPESIZE
    ensures SleepersOk(ps[me := Idle], flight', readopen, writeopen)
    ensures ReadersOk(ps, flight, writeopen) ==>
              (ReadersOk(ps[me := Idle], flight', writeopen) <==> !(flight' != flight && SomeReaderAsleep(ps)))
  {
    var ps' := ps[me := Idle];
    if j :| 0 <= j < |ps| && AsleepReading(ps[j]) {
      assert AsleepReading(ps'[j]);
    }
  }

  /** A reader goes to sleep, or gives up, in front of an empty pipe. */
  lemma ReadStays(ps: seq<Proc>, readopen: bool, me: nat, n: nat)
    requires SleepersOk(ps, 0, readopen, true) && me < |ps| && ps[me].Reading?
    ensures SleepersOk(ps[me := Idle], 0, readopen, true) && SleepersOk(ps[me := Reading(n, true)], 0, readopen, true)
    ensures ReadersOk(ps[me := Idle], 0, true) && ReadersOk(ps[me := Reading(n, true)], 0, true)
  {
  }

  /** All writers are awake once piperead has woken them. */
  lemma ReadWakes(ps: seq<Proc>, flight: int, flight': int, readopen: bool, writeopen: bool, me: nat)
    requires SleepersOk(ps, flight, readopen, writeopen) && me < |ps| && ps[me].Reading? && 0 <= flight' <= flight
    ensures SleepersOk(AllWoken(ps, false)[me := Idle], flight', readopen, writeopen)
    ensures ReadersOk(ps, flight, writeopen) ==> ReadersOk(AllWoken(ps, false)[me := Idle], flight', writeopen)
  {
  }

  lemma InCall(ps: seq<Proc>, flight: int, readopen: bool, writeopen: bool, me: nat)
    requires SleepersOk(ps, flight, readopen, writeopen) && me < |ps| && ps[me].Writing?
    ensures writeopen && ps[me].i <= |ps[me].addr|
  {
  }

  lemma NoReaders(ps: seq<Proc>, flight: int, readopen: bool, writeopen: bool)
    requires SleepersOk(ps, flight, readopen, writeopen) && !readopen
    ensures !SomeReaderAsleep(ps)
  {
  }

  lemma ReadersOnEmpty(ps: seq<Proc>, flight: int, writeopen: bool)
    requires ReadersOk(ps, flight, writeopen)
    ensures SomeReaderAsleep(ps) ==> flight == 0
  {
  }

  /** The tests on the wrapped counters are exact. */
  lemma CountersExact(written: nat, taken: nat)
    requires taken <= written <= taken + PIPESIZE
    ensures written % UINT == (taken % UINT + PIPESIZE) % UINT <==> written == taken + PIPESIZE
    ensures written % UINT == taken % UINT <==> written == taken
  {
    WrapStep(taken, PIPESIZE);
    WrapStep(taken, written - taken);
  }

  lemma WrapStep(x: nat, d: nat)
    requires d <= PIPESIZE
    ensures (x % UINT + d) % UINT == (x + d) % UINT
    ensures (x + d) % UINT == if x % UINT + d < UINT then x % UINT + d else x % UINT + d - UINT
  {
    var q := x / UINT;
    assert x + d == q * UINT + (x % UINT + d);
  }

  /** Indices survive the wrap because PIPESIZE divides 2^32. */
  lemma IndexExact(x: nat)
    ensures x % UINT % PIPESIZE == x % PIPESIZE
  {
    var q := x / UINT;
    assert x == (q * (UINT / PIPESIZE)) * PIPESIZE + x % UINT;
  }

  /** Bytes in flight have slots of their own. */
  lemma SlotsDistinct(j: nat, k: nat)
    requires j < k < j + PIPESIZE
    ensures j % PIPESIZE != k % PIPESIZE
  {
  }

  class Pipe {
    const data: array<Byte>
    var nread: nat
    var nwrite: nat
    var readopen: bool
    var writeopen: bool
    const procs: array<Proc>
    const killed: array<bool>

    ghost var written: seq<Byte>   // everything ever written
    ghost var taken: nat           // how much of it was read

    /** The ring holds exactly the bytes written and not yet read. */
    ghost predicate Ring()
      reads this, data
    {
      && data.Length == PIPESIZE && taken <= |written| <= taken + PIPESIZE
      && nread == taken % UINT && nwrite == |written| % UINT
      && forall k :: taken <= k < |written| ==> data[k % PIPESIZE] == written[k]
    }

    ghost predicate Sleepers()
      reads this, procs
    {
      SleepersOk(procs[..], |written| - taken, readopen, writeopen)
    }

    ghost predicate Valid()
      reads this, data, procs
    {
      Ring() && Sleepers() && killed.Length == procs.Length
    }

    ghost predicate ReadersHaveCause()
      reads this, procs
    {
      ReadersOk(procs[..], |written| - taken, writeopen)
    }

    /** pipealloc, with n processes that might use the pipe. */
    constructor (n: nat)
      ensures Valid() && ReadersHaveCause() && written == [] && taken == 0 && readopen && writeopen
      ensures fresh(data) && fresh(procs) && fresh(killed)
      ensures procs.Length == n && forall j :: 0 <= j < n ==> procs[j] == Idle && !killed[j]
    {
      data := new Byte[PIPESIZE];
      nread, nwrite, readopen, writeopen := 0, 0, true, true;
      procs := new Proc[n](_ => Idle);
      killed := new bool[n](_ => false);
      written, taken := [], 0;
    }

    lemma InFlight()
      requires Ring()
      ensures taken <= |written| <= taken + PIPESIZE
    {
    }

    /** wakeup: every process asleep on the channel becomes runnable. */
    method Wakeup(readers: bool)
      modifies procs
      ensures procs[..] == AllWoken(old(procs[..]), readers)
    {
      var j := 0;
      while j < procs.Length
        invariant j <= procs.Length
        invariant forall k :: 0 <= k < j ==> procs[k] == Woken(old(procs[k]), readers)
        invariant forall k :: j <= k < procs.Length ==> procs[k] == old(procs[k])
      {
        procs[j] := Woken(procs[j], readers);
        j := j + 1;
      }
    }

    method Put(b: Byte)
      requires Ring() && |written| < taken + PIPESIZE
      modifies this`nwrite, this`written, data
      ensures Ring() && written == old(written) + [b]
    {
      WrapStep(|written|, 1);
      IndexExact(|written|);
      forall k | taken <= k < |written|
        ensures k % PIPESIZE != |written| % PIPESIZE
      {
        SlotsDistinct(k, |written|);
      }
      data[nwrite % PIPESIZE] := b;
      nwrite := (nwrite + 1) % UINT;
      written := written + [b];
    }

    method Get() returns (b: Byte)
      requires Ring() && taken < |written|
      modifies this`nread, this`taken
      ensures Ring() && taken == old(taken) + 1 && b == written[old(taken)]
    {
      WrapStep(taken, 1);
      IndexExact(taken);
      b := data[nread % PIPESIZE];
      nread := (nread + 1) % UINT;
      taken := taken + 1;
    }

    /** Bytes pipewrite still fits into the pipe. */
    ghost function Fits(p: Proc): nat
      requires Ring() && p.Writing? && p.i <= |p.addr|
      reads this, data
    {
      Min(|p.addr| - p.i, PIPESIZE - (|written| - taken))
    }

    /** pipewrite of process me, from where it is to its next sleep or its return. Who sleeps in piperead still has
        cause unless a killed writer fills an empty pipe: it returns without waking anybody. */
    method PipeWrite(me: nat) returns (r: Outcome)
      requires Valid() && me < procs.Length && procs[me].Writing? && !procs[me].asleep
      modifies this`nwrite, this`written, data, procs
      ensures Valid()
      ensures var addr, i, k := old(procs[me].addr), old(procs[me].i), old(Fits(procs[me]));
              && written == old(written) + addr[i..i + k]
              && r == (if i + k == |addr| then Returned(|addr|)
                       else if readopen && !killed[me] then Asleep else Returned(-1))
              && procs[..] == (if r == Returned(-1) then old(procs[..]) else AllWoken(old(procs[..]), true))
                                [me := if r == Asleep then Writing(addr, i + k, true) else Idle]
      ensures old(ReadersHaveCause()) ==>
                (ReadersHaveCause() <==>
                 !(killed[me] && |old(procs[me].addr)| - old(procs[me].i) > PIPESIZE
                   && SomeReaderAsleep(old(procs[..]))))
    {
      hide Ring, SleepersOk, ReadersOk, SomeReaderAsleep;
      var addr, i := procs[me].addr, procs[me].i;
      ghost var ps, flight := procs[..], |written| - taken;
      InCall(ps, flight, readopen, writeopen, me);
      InFlight();
      i := Fill(me, addr, i);
      if i == |addr| {
        Wakeup(true);
        procs[me] := Idle;
        WriteWakes(ps, flight, |written| - taken, readopen, writeopen, me, Idle);
        if ReadersOk(ps, flight, writeopen) { ReadersOnEmpty(ps, flight, writeopen); }
        return Returned(|addr|);
      }
      if !readopen || killed[me] {
        procs[me] := Idle;
        WriteGivesUp(ps, flight, |written| - taken, readopen, writeopen, me);
        if ReadersOk(ps, flight, writeopen) { ReadersOnEmpty(ps, flight, writeopen); }
        if !readopen {
          NoReaders(ps, flight, readopen, writeopen);
        }
        return Returned(-1);
      }
      Wakeup(true);
      procs[me] := Writing(addr, i, true);
      WriteWakes(ps, flight, |written| - taken, readopen, writeopen, me, procs[me]);
      r := Asleep;
    }

    /** The bytes pipewrite stores before it is done or finds the pipe full. */
    method Fill(ghost me: nat, addr: seq<Byte>, i0: nat) returns (i: nat)
      requires Ring() && me < procs.Length && procs[me].Writing? && procs[me].addr == addr && procs[me].i == i0
      requires i0 <= |addr|
      modifies this`nwrite, this`written, data
      ensures Ring() && i == i0 + old(Fits(procs[me])) && i <= |addr| && written == old(written) + addr[i0..i]
      ensures i < |addr| ==> |written| == taken + PIPESIZE
      ensures i > i0 || |written| == |old(written)|
    {
      i := i0;
      while i < |addr|
        invariant i0 <= i <= |addr| && Ring() && written == old(written) + addr[i0..i]
      {
        CountersExact(|written|, taken);
        if nwrite == (nread + PIPESIZE) % UINT {
          return;
        }
        Put(addr[i]);
        i := i + 1;
      }
    }

    /** piperead of process me, from where it is to its next sleep or its return. */
    method PipeRead(me: nat) returns (r: Outcome, bytes: seq<Byte>)
      requires Valid() && me < procs.Length && procs[me].Reading? && !procs[me].asleep
      modifies this`nread, this`taken, procs
      ensures Valid() && (old(ReadersHaveCause()) ==> ReadersHaveCause())
      ensures r == Asleep <==> |written| == old(taken) && writeopen && !killed[me]
      ensures r == Returned(-1) <==> |written| == old(taken) && writeopen && killed[me]
      ensures r == Asleep || r == Returned(-1) ==>
                && taken == old(taken) && bytes == []
                && procs[..] == old(procs[..])[me := if r == Asleep then Reading(old(procs[me].n), true) else Idle]
      ensures r != Asleep && r != Returned(-1) ==>
                var k := Min(old(procs[me].n), |written| - old(taken));
                && r == Returned(k) && taken == old(taken) + k && bytes == written[old(taken)..taken]
                && procs[..] == AllWoken(old(procs[..]), false)[me := Idle]
    {
      hide SleepersOk, ReadersOk;
      ghost var ps, flight := procs[..], |written| - taken;
      CountersExact(|written|, taken);
      var n := procs[me].n;
      if nread == nwrite && writeopen {
        ReadStays(ps, readopen, me, n);
        if killed[me] {
          procs[me] := Idle;
          return Returned(-1), [];
        }
        procs[me] := Reading(n, true);
        return Asleep, [];
      }
      var i;
      i, bytes := Drain(n);
      Wakeup(false);
      procs[me] := Idle;
      ReadWakes(ps, flight, |written| - taken, readopen, writeopen, me);
      r := Returned(i);
    }

    /** Up to n bytes out of the ring. */
    method Drain(n: nat) returns (i: nat, bytes: seq<Byte>)
      requires Ring()
      modifies this`nread, this`taken
      ensures Ring() && i == Min(n, |written| - old(taken)) && old(taken) <= |written|
      ensures taken == old(taken) + i <= |written| && bytes == written[old(taken)..taken]
    {
      i, bytes := 0, [];
      while i < n
        invariant i <= n && Ring() && taken == old(taken) + i && bytes == written[old(taken)..taken]
      {
        CountersExact(|written|, taken);
        if nread == nwrite {
          break;
        }
        var b := Get();
        bytes := bytes + [b];
        i := i + 1;
      }
    }

    /** kill of process me: marked, and runnable if it slept. */
    method Kill(me: nat)
      requires Valid() && me < procs.Length
      modifies procs, killed
      ensures Valid() && (old(ReadersHaveCause()) ==> ReadersHaveCause())
      ensures procs[..] == old(procs[..])[me := Woken(Woken(old(procs[me]), true), false)]
      ensures killed[..] == old(killed[..])[me := true]
    {
      killed[me] := true;
      procs[me] := Woken(Woken(procs[me], true), false);
    }

    /** pipeclose of one end, once no call holds it open; tells whether the pipe was freed. */
    method PipeClose(writable: bool) returns (freed: bool)
      requires Valid() && forall j :: 0 <= j < procs.Length ==>
                if writable then !procs[j].Writing? else !procs[j].Reading?
      modifies this`readopen, this`writeopen, procs
      ensures Valid() && (old(ReadersHaveCause()) ==> ReadersHaveCause())
      ensures readopen == (old(readopen) && writable) && writeopen == (old(writeopen) && !writable)
      ensures procs[..] == AllWoken(old(procs[..]), writable)
      ensures freed ==> forall j :: 0 <= j < procs.Length ==> procs[j] == Idle
      ensures freed <==> !readopen && !writeopen
    {
      if writable {
        writeopen := false;
        Wakeup(true);
      } else {
        readopen := false;
        Wakeup(false);
      }
      freed := !readopen && !writeopen;
    }
  }

  /** A scheduling decision: a process enters a call, runs until it sleeps or returns, or is killed, or an end is
      closed. */
  datatype Step =
    | EnterWrite(me: nat, addr: seq<Byte>)
    | EnterRead(me: nat, n: nat)
    | Go(me: nat)
    | Kill(me: nat)
    | Close(writable: bool)

  ghost predicate NobodyKilled(p: Pipe)
    reads p, p.killed
  {
    forall j :: 0 <= j < p.killed.Length ==> !p.killed[j]
  }

  /** Any schedule: what is read is a prefix of what was written, at most PIPESIZE bytes are in flight, a sleeping
      writer has cause and never faces a sleeping reader; and if nobody is killed, a sleeping reader has cause. */
  method Run(p: Pipe, steps: seq<Step>) returns (delivered: seq<Byte>)
    requires p.Valid() && p.ReadersHaveCause() && NobodyKilled(p) && p.taken == 0
    modifies p, p.data, p.procs, p.killed
    ensures p.Valid() && old(p.written) <= p.written
    ensures delivered <= p.written && |p.written| <= |delivered| + 512
    ensures (forall s :: 0 <= s < |steps| ==> !steps[s].Kill?) ==> p.ReadersHaveCause()
  {
    delivered := [];
    for s := 0 to |steps|
      invariant p.Valid() && old(p.written) <= p.written
      invariant p.taken == |delivered| && delivered == p.written[..p.taken]
      invariant (forall t :: 0 <= t < s ==> !steps[t].Kill?) ==> NobodyKilled(p) && p.ReadersHaveCause()
    {
      var bytes := TakeStep(p, steps[s]);
      delivered := delivered + bytes;
    }
  }

  /** In pipewrite and not asleep. */
  predicate Awake(p: Proc) {
    p.Writing? && !p.asleep
  }

  /** One step, if it is possible: a writer that goes on stores what fits, a reader takes what is there. */
  method TakeStep(p: Pipe, step: Step) returns (bytes: seq<Byte>)
    requires p.Valid()
    modifies p, p.data, p.procs, p.killed
    ensures p.Valid() && old(p.written) <= p.written
    ensures old(p.taken) <= p.taken <= |p.written| && bytes == p.written[old(p.taken)..p.taken]
    ensures old(p.ReadersHaveCause() && NobodyKilled(p)) && !step.Kill? ==> p.ReadersHaveCause() && NobodyKilled(p)
    ensures step.Go? && step.me < p.procs.Length && Awake(old(p.procs[step.me])) ==>
              var q, room := old(p.procs[step.me]), 512 - (|old(p.written)| - old(p.taken));
              q.i <= |q.addr| && p.written == old(p.written) + q.addr[q.i..][..Min(|q.addr| - q.i, room)]
    ensures step.Go? && step.me < p.procs.Length && old(p.procs[step.me]).Reading? && !old(p.procs[step.me]).asleep ==>
              |bytes| == Min(old(p.procs[step.me]).n, |old(p.written)| - old(p.taken))
    ensures (step.EnterWrite? || step.EnterRead?) && step.me < p.procs.Length && old(p.procs[step.me]) == Idle
            && !old(p.killed[step.me]) && (if step.EnterWrite? then p.writeopen else p.readopen) ==>
              p.procs[step.me] == if step.EnterWrite? then Writing(step.addr, 0, false) else Reading(step.n, false)
    ensures step.Kill? && step.me < p.procs.Length ==> p.killed[step.me]
  {
    hide p.Ring, SleepersOk, ReadersOk;
    p.InFlight();
    bytes := [];
    match step
    case EnterWrite(_, _) => Enter(p, step);
    case EnterRead(_, _) => Enter(p, step);
    case Go(me) =>
      if me < p.procs.Length && p.procs[me].Writing? && !p.procs[me].asleep {
        var _ := p.PipeWrite(me);
      } else if me < p.procs.Length && p.procs[me].Reading? && !p.procs[me].asleep {
        var r;
        r, bytes := p.PipeRead(me);
      }
      p.InFlight();
    case Kill(me) =>
      if me < p.procs.Length {
        p.Kill(me);
      }
    case Close(writable) => CloseIfUnused(p, writable);
  }

  method Enter(p: Pipe, step: Step)
    requires p.Valid() && (step.EnterWrite? || step.EnterRead?)
    modifies p.procs
    ensures p.Valid() && (old(p.ReadersHaveCause()) ==> p.ReadersHaveCause())
    ensures step.me < p.procs.Length && old(p.procs[step.me]) == Idle
            && !p.killed[step.me] && (if step.EnterWrite? then p.writeopen else p.readopen) ==>
              p.procs[step.me] == if step.EnterWrite? then Writing(step.addr, 0, false) else Reading(step.n, false)
  {
    if step.me < p.procs.Length && p.procs[step.me] == Idle && !p.killed[step.me] {
      if step.EnterWrite? && p.writeopen {
        p.procs[step.me] := Writing(step.addr, 0, false);
      } else if step.EnterRead? && p.readopen {
        p.procs[step.me] := Reading(step.n, false);
      }
    }
  }

  method CloseIfUnused(p: Pipe, writable: bool)
    requires p.Valid()
    modifies p`readopen, p`writeopen, p.procs
    ensures p.Valid() && (old(p.ReadersHaveCause()) ==> p.ReadersHaveCause())
  {
    hide p.Ring, SleepersOk, ReadersOk;
    var busy := false;
    for j := 0 to p.procs.Length
      invariant !busy ==> forall k :: 0 <= k < j ==> if writable then !p.procs[k].Writing? else !p.procs[k].Reading?
    {
      busy := busy || (if writable then p.procs[j].Writing? else p.procs[j].Reading?);
    }
    if !busy {
      var _ := p.PipeClose(writable);
    }
  }

  /** A new pipe with a reader asleep. */
  method ReaderWaits() returns (p: Pipe)
    ensures p.Valid() && p.ReadersHaveCause() && p.written == [] && p.taken == 0 && p.readopen && p.writeopen
    ensures fresh(p) && fresh(p.data) && fresh(p.procs) && fresh(p.killed)
    ensures p.procs.Length == 2 && p.procs[0] == Reading(1, true) && p.procs[1] == Idle
  {
    p := new Pipe(2);
    p.procs[0] := Reading(1, false);
    var _, _ := p.PipeRead(0);
  }

  /** A killed writer that fills an empty pipe leaves a reader asleep in front of PIPESIZE bytes. */
  method KilledWriterLeavesReaderAsleep() returns (p: Pipe)
    ensures p.Valid() && !p.ReadersHaveCause()
    ensures p.procs.Length == 2 && p.procs[0] == Reading(1, true) && p.procs[1] == Idle
    ensures |p.written| == p.taken + PIPESIZE && p.readopen && p.writeopen
  {
    p := ReaderWaits();
    p.procs[1] := Writing(seq(PIPESIZE + 1, _ => 0), 0, false);
    p.Kill(1);
    assert AsleepReading(p.procs[..][0]);
    var _ := p.PipeWrite(1);
    assert AsleepReading(p.procs[..][0]);
  }
}
