/** The xv6 log (log.c) over a block disk.  Every bwrite is one atomic step, recorded in the disk's trace, so a crash
    is a prefix of the trace. */
module Log {
  import opened LogDisk

  class BlockDisk {
    const blocks: array<Block>
    ghost var trace: seq<Disk>  // the image after each write so far

    constructor (image: seq<Block>)
      ensures fresh(blocks) && blocks[..] == image && trace == []
    {
      blocks := new Block[|image|](i requires 0 <= i < |image| => image[i]);
      trace := [];
      new;
      assert blocks[..] == image;
    }

    method Write(b: nat, data: Block)
      requires b < blocks.Length
      modifies blocks, this`trace
      ensures blocks[..] == old(blocks[..])[b := data]
      ensures trace == old(trace) + [blocks[..]]
    {
      blocks[b] := data;
      trace := trace + [blocks[..]];
    }
  }

  /** log_write's two panics. */
  datatype LogWriteResult = Logged | TooBigTransaction | OutsideOfTrans

  /** begin_op admits an operation. */
  predicate Admits(n: nat, outstanding: int, committing: bool) {
    !committing && n + (outstanding + 1) * MAXOPBLOCKS <= LOGSIZE
  }

  /** log_write finds the log full. */
  predicate Full(L: Layout, n: nat) {
    n >= LOGSIZE || n >= L.size - 1
  }

  /** The block list after log_write: absorbed if already there, else appended. */
  function Absorb(lh: seq<nat>, b: nat): seq<nat> {
    if b in lh then lh else lh + [b]
  }

  class Log {
    const L: Layout
    const disk: BlockDisk
    const lh_block: array<nat>
    var lh_n: nat
    var outstanding: int
    var committing: bool
    var cache: map<nat, Block>  // the buffers pinned by B_DIRTY

    ghost predicate Shape()
      reads this, lh_block, disk.blocks
    {
      && L.Valid() && lh_block.Length == LOGSIZE && disk.blocks.Length == L.nblocks
      && lh_n <= LOGSIZE
    }

    /** The logged block numbers. */
    ghost function Lh(): seq<nat>
      reads this, lh_block
      requires lh_n <= lh_block.Length
    {
      lh_block[..lh_n]
    }

    /** Between commits: the logged blocks are exactly the dirty buffers. */
    ghost predicate Valid()
      reads this, lh_block, disk.blocks
    {
      Shape() && CacheFor(L, Lh(), cache)
    }

    constructor (L: Layout, disk: BlockDisk)
      requires L.Valid() && disk.blocks.Length == L.nblocks
      ensures this.L == L && this.disk == disk && fresh(lh_block)
      ensures Shape() && lh_n == 0 && outstanding == 0 && !committing && cache == map[]
    {
      this.L, this.disk := L, disk;
      lh_block := new nat[LOGSIZE](_ => 0);
      lh_n, outstanding, committing, cache := 0, 0, false, map[];
    }

    /** bread: the pinned copy if there is one, else the block on disk. */
    function Bread(b: nat): Block
      reads this, disk.blocks
      requires b < disk.blocks.Length
    {
      if b in cache then cache[b] else disk.blocks[b]
    }

    /** bwrite: to disk at once, and the buffer is clean again. */
    method Bwrite(b: nat, data: Block)
      requires b < disk.blocks.Length
      modifies disk.blocks, disk`trace, this`cache
      ensures disk.blocks[..] == old(disk.blocks[..])[b := data]
      ensures disk.trace == old(disk.trace) + [disk.blocks[..]]
      ensures cache == old(cache) - {b}
      ensures b !in old(cache) ==> cache == old(cache)
    {
      disk.Write(b, data);
      assert b !in cache ==> cache - {b} == cache;
      cache := cache - {b};
    }

    /** install_trans has installed k of the blocks lh, having started from image d and cache c with the trace before.
        */
    ghost predicate Installing(d: Disk, lh: seq<nat>, c: map<nat, Block>, before: seq<Disk>, k: nat)
      reads this, lh_block, disk, disk.blocks
    {
      && Shape() && Lh() == lh && L.LogList(lh) && |d| == L.nblocks && k <= |lh|
      && disk.blocks[..] == Installed(L, d, lh, k)
      && disk.trace == before + InstallTrace(L, d, lh)[..k]
      && (forall b :: b in c ==> L.Home(b)) && (forall b :: b in cache <==> b in c && b !in lh[..k])
    }

    /** One logged block copied home. */
    method InstallBlock(tail: nat, ghost d: Disk, ghost lh: seq<nat>, ghost c: map<nat, Block>, ghost before: seq<Disk>)
      requires Installing(d, lh, c, before, tail) && tail < lh_n
      modifies disk.blocks, disk`trace, this`cache
      ensures Installing(d, lh, c, before, tail + 1)
    {
      hide InstallTrace, Installed;
      InstalledStep(L, d, lh, tail);
      LogBlockStays(L, d, lh, tail, L.start + tail + 1);
      InstallTraceStep(L, d, lh, tail);
      var lbuf := Bread(L.start + tail + 1);
      assert lbuf == disk.blocks[..][L.start + tail + 1];
      assert lh[..tail + 1] == lh[..tail] + [lh[tail]];
      Bwrite(lh_block[tail], lbuf);
    }

    method InstallTrans()
      requires Shape() && L.LogList(Lh())
      requires forall b :: b in cache ==> L.Home(b)
      modifies disk.blocks, disk`trace, this`cache
      ensures disk.blocks[..] == Installed(L, old(disk.blocks[..]), Lh(), lh_n)
      ensures disk.trace == old(disk.trace) + InstallTrace(L, old(disk.blocks[..]), Lh())
      ensures forall b :: b in cache <==> b in old(cache) && b !in Lh()
    {
      hide InstallTrace, Installed, Installing;
      ghost var d, lh, c, before := disk.blocks[..], Lh(), cache, disk.trace;
      NothingInstalled();
      for tail := 0 to lh_n
        invariant Installing(d, lh, c, before, tail)
      {
        InstallBlock(tail, d, lh, c, before);
      }
      AllInstalled(d, lh, c, before);
    }

    lemma NothingInstalled()
      requires Shape() && L.LogList(Lh()) && forall b :: b in cache ==> L.Home(b)
      ensures Installing(disk.blocks[..], Lh(), cache, disk.trace, 0)
    {
    }

    lemma AllInstalled(d: Disk, lh: seq<nat>, c: map<nat, Block>, before: seq<Disk>)
      requires Installing(d, lh, c, before, lh_n) && lh_n == |lh|
      ensures |d| == L.nblocks && |lh| < L.size && L.LogList(lh)
      ensures disk.blocks[..] == Installed(L, d, lh, lh_n) && disk.trace == before + InstallTrace(L, d, lh)
      ensures forall b :: b in cache <==> b in c && b !in lh
    {
      assert lh[..lh_n] == lh;
      assert InstallTrace(L, d, lh)[..lh_n] == InstallTrace(L, d, lh);
    }

    /** Read the header from disk; nothing is cached yet at boot. */
    method ReadHead()
      requires Shape() && HeadOk(L, disk.blocks[..]) && L.start !in cache
      modifies this`lh_n, lh_block
      ensures Shape() && Lh() == DecodeHead(disk.blocks[L.start])
    {
      var hb := Bread(L.start);
      lh_n := hb[0];
      for i := 0 to lh_n
        invariant lh_n == hb[0]
        invariant forall j :: 0 <= j < i ==> lh_block[j] == hb[j + 1]
      {
        lh_block[i] := hb[i + 1];
      }
    }

    method WriteHead()
      requires Shape() && L.start !in cache && forall i :: 0 <= i < lh_n ==> lh_block[i] < 0x1_0000_0000
      modifies disk.blocks, disk`trace, this`cache
      ensures forall i :: 0 <= i < |Lh()| ==> Lh()[i] < 0x1_0000_0000
      ensures disk.blocks[..] == WithHead(L, old(disk.blocks[..]), Lh())
      ensures disk.trace == old(disk.trace) + [disk.blocks[..]]
      ensures cache == old(cache)
    {
      ghost var old_head := disk.blocks[L.start];
      var hb := Bread(L.start);
      hb := hb[0 := lh_n];
      for i := 0 to lh_n
        invariant forall w :: 0 <= w < WORDS ==>
                    hb[w] == if w == 0 then lh_n else if w <= i then lh_block[w - 1] else old_head[w]
      {
        hb := hb[i + 1 := lh_block[i]];
      }
      assert hb == EncodeHead(old_head, Lh());
      assert old_head == disk.blocks[..][L.start];
      Bwrite(L.start, hb);
    }

    /** recover_from_log, run at boot before anything is cached. */
    method RecoverFromLog()
      requires Shape() && HeadOk(L, disk.blocks[..]) && cache == map[]
      modifies disk.blocks, disk`trace, this`cache, this`lh_n, lh_block
      ensures Valid() && lh_n == 0 && cache == map[]
      ensures disk.blocks[..] == Recover(L, old(disk.blocks[..]))
      ensures disk.trace == old(disk.trace) + RecoverTrace(L, old(disk.blocks[..]))
    {
      ghost var d := disk.blocks[..];
      ReadHead();
      ghost var lh := Lh();
      InstallTrans();
      lh_n := 0;
      assert Lh() == [];
      WriteHead();
      assert disk.trace == old(disk.trace) + (InstallTrace(L, d, lh) + [Recover(L, d)]);
    }

    /** One pass through begin_op's loop: the operation is admitted, or it sleeps and nothing changes. */
    method BeginOp() returns (admitted: bool)
      requires Shape()
      modifies this`outstanding
      ensures admitted == Admits(lh_n, old(outstanding), committing)
      ensures admitted <==> !committing && lh_n + (old(outstanding) + 1) * 10 <= 30
      ensures outstanding == old(outstanding) + if admitted then 1 else 0
    {
      if committing {
        return false;
      } else if lh_n + (outstanding + 1) * MAXOPBLOCKS > LOGSIZE {
        return false;
      } else {
        outstanding := outstanding + 1;
        return true;
      }
    }

    /** log_write of a buffer whose contents the caller has set to data. A block of the log itself is accepted too, and
        only that leaves the log unsound. */
    method LogWrite(b: nat, data: Block) returns (r: LogWriteResult)
      requires Valid()
      modifies this`lh_n, this`cache, lh_block
      ensures Shape() && (Valid() <==> L.Home(b) || r != Logged)
      ensures r == if Full(L, old(lh_n)) then TooBigTransaction
                   else if outstanding < 1 then OutsideOfTrans else Logged
      ensures Lh() == if r == Logged then Absorb(old(Lh()), b) else old(Lh())
      ensures cache == if r == Logged then old(cache)[b := data] else old(cache)
    {
      if lh_n >= LOGSIZE || lh_n >= L.size - 1 {
        return TooBigTransaction;
      }
      if outstanding < 1 {
        return OutsideOfTrans;
      }
      ghost var lh := Lh();
      var i := 0;
      while i < lh_n
        invariant i <= lh_n && b !in lh[..i]
      {
        if lh_block[i] == b {
          break;
        }
        i := i + 1;
      }
      lh_block[i] := b;
      if i == lh_n {
        lh_n := lh_n + 1;
      }
      cache := cache[b := data];
      assert i < |lh| ==> lh[i] == b;
      assert Lh() == Absorb(lh, b);
      r := Logged;
    }

    /** write_log has copied k blocks, having started from image d with the trace before. */
    ghost predicate Copied(d: Disk, lh: seq<nat>, c: map<nat, Block>, before: seq<Disk>, k: nat)
      reads this, lh_block, disk, disk.blocks
    {
      && Valid() && cache == c && Lh() == lh && |d| == L.nblocks && k <= |lh| < L.size
      && (forall i :: 0 <= i < |lh| ==> lh[i] in c)
      && disk.blocks[..] == LogDisk.Logged(L, d, lh, c, k)
      && disk.trace == before + LogTrace(L, d, lh, c)[..k]
    }

    /** One block copied from cache to its log slot. */
    method WriteLogBlock(tail: nat, ghost d: Disk, ghost lh: seq<nat>, ghost c: map<nat, Block>,
                         ghost before: seq<Disk>)
      requires Copied(d, lh, c, before, tail) && tail < lh_n
      modifies disk.blocks, disk`trace, this`cache
      ensures Copied(d, lh, c, before, tail + 1)
    {
      hide LogTrace, LogDisk.Logged;
      LoggedAreCached();
      LoggedStep(L, d, lh, c, tail);
      LogTraceStep(L, d, lh, c, tail);
      var from := Bread(lh_block[tail]);
      Bwrite(L.start + tail + 1, from);
    }

    /** Copy modified blocks from cache to log. */
    method WriteLog()
      requires Valid()
      modifies disk.blocks, disk`trace, this`cache
      ensures cache == old(cache)
      ensures disk.blocks[..] == LogDisk.Logged(L, old(disk.blocks[..]), Lh(), cache, lh_n)
      ensures disk.trace == old(disk.trace) + LogTrace(L, old(disk.blocks[..]), Lh(), cache)
    {
      hide LogTrace, LogDisk.Logged, Copied;
      ghost var d, lh, c, before := disk.blocks[..], Lh(), cache, disk.trace;
      NothingCopied();
      for tail := 0 to lh_n
        invariant Copied(d, lh, c, before, tail)
      {
        WriteLogBlock(tail, d, lh, c, before);
      }
      AllCopied(d, lh, c, before);
    }

    lemma NothingCopied()
      requires Valid()
      ensures Copied(disk.blocks[..], Lh(), cache, disk.trace, 0)
    {
      LoggedAreCached();
    }

    lemma AllCopied(d: Disk, lh: seq<nat>, c: map<nat, Block>, before: seq<Disk>)
      requires Copied(d, lh, c, before, lh_n) && lh_n == |lh|
      ensures cache == c && |d| == L.nblocks && |lh| < L.size && (forall i :: 0 <= i < |lh| ==> lh[i] in c)
      ensures disk.blocks[..] == LogDisk.Logged(L, d, lh, c, lh_n)
      ensures disk.trace == before + LogTrace(L, d, lh, c)
    {
      assert LogTrace(L, d, lh, c)[..lh_n] == LogTrace(L, d, lh, c);
    }

    lemma LoggedAreCached()
      requires Valid()
      ensures lh_n < L.size
      ensures forall i :: 0 <= i < lh_n ==> Lh()[i] in cache && Lh()[i] < L.nblocks
      ensures forall b :: L.start <= b < L.start + L.size ==> b !in cache
    {
    }

    /** commit: its disk writes are exactly CommitTrace. */
    method Commit()
      requires Valid()
      modifies disk.blocks, disk`trace, this`cache, this`lh_n
      ensures Valid() && lh_n == 0 && cache == map[]
      ensures disk.trace == old(disk.trace) + CommitTrace(L, old(disk.blocks[..]), old(Lh()), old(cache))
      ensures disk.blocks[..] == if old(lh_n) == 0 then old(disk.blocks[..])
                                 else disk.trace[|disk.trace| - 1]
    {
      hide LogDisk.Logged, Installed, LogTrace, InstallTrace, WithHead, CommitTrace, Sealed;
      ghost var d, lh, c, before := disk.blocks[..], Lh(), cache, disk.trace;
      CommitUnfold(L, d, lh, c);
      if lh_n > 0 {
        WriteLog();
        WriteHead();
        ghost var s := disk.blocks[..];
        InstallTrans();
        lh_n := 0;
        assert Lh() == [] && cache == map[];
        WriteHead();
        Joined(before, LogTrace(L, d, lh, c), s, InstallTrace(L, s, lh), disk.blocks[..]);
      } else {
        assert Lh() == [] && cache == map[];
        assert disk.trace == before + [];
      }
    }

    static lemma Joined(t: seq<Disk>, a: seq<Disk>, s: Disk, b: seq<Disk>, e: Disk)
      ensures t + a + [s] + b + [e] == t + (a + [s] + b + [e])
    {
    }

    /** end_op.  committing is set under the lock before the commit and cleared after it; the result tells whether
        the panic on an already set flag was hit. */
    method EndOp() returns (panicked: bool)
      requires Valid()
      modifies disk.blocks, disk`trace, this`cache, this`lh_n, this`outstanding, this`committing
      ensures Valid()
      ensures outstanding == old(outstanding) - 1
      ensures panicked == old(committing) && committing == old(committing)
      ensures panicked || outstanding != 0 ==>
                lh_n == old(lh_n) && cache == old(cache) && disk.blocks[..] == old(disk.blocks[..])
                && disk.trace == old(disk.trace)
      ensures !panicked && outstanding == 0 ==>
                lh_n == 0 && cache == map[]
                && disk.trace == old(disk.trace) + CommitTrace(L, old(disk.blocks[..]), old(Lh()), old(cache))
                && disk.blocks[..] == if old(lh_n) == 0 then old(disk.blocks[..]) else disk.trace[|disk.trace| - 1]
    {
      var do_commit := false;
      outstanding := outstanding - 1;
      if committing {
        return true;
      }
      if outstanding == 0 {
        do_commit := true;
        committing := true;
      }
      if do_commit {
        Commit();
        committing := false;
      }
      panicked := false;
    }
  }
}
