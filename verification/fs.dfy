/** The block layer and inode contents of xv6 (fs.c) and filewrite (file.c), over arrays updated in place.  Block
    contents are those of the buffer cache; log_write is recorded in a set, emptied when a transaction begins. */
module FileSys {
  import opened Common
  import opened FsState
  import LogDisk

  /** readi: the bytes, -1, or whatever the driver of a device returned. */
  datatype ReadResult = Read(bytes: seq<Byte>) | NotRead | ReadByDriver(ret: int)

  /** writei: how many bytes were written, -1, balloc's panic, or whatever the driver of a device returned. */
  datatype WriteResult = Wrote(n: nat) | Refused | OutOfBlocks | WroteByDriver(ret: int)

  /** filewrite: n or -1, balloc's panic, or its own, "short filewrite". */
  datatype FilewriteResult = Returned(n: int) | NoBlocks | ShortFilewrite

  /** filewrite's max: what fits a transaction besides inode, indirect block and slop for unaligned writes. */
  const CHUNK := ((LogDisk.MAXOPBLOCKS - 1 - 1 - 2) / 2) * 512

  /** What the file system keeps on disk. */
  datatype Image = Image(bitmap: seq<bool>, blocks: seq<Bytes>, dinodes: seq<Inode>)

  /** Whatever differs between two images went through log_write: blocks, bits of the bitmap, inodes. */
  ghost predicate Recorded(g: Super, a: Image, b: Image, logged: set<nat>) {
    && |b.bitmap| == |a.bitmap| && |b.blocks| == |a.blocks| && |b.dinodes| == |a.dinodes|
    && (forall k :: 0 <= k < |a.blocks| && b.blocks[k] != a.blocks[k] ==> k in logged)
    && (forall k :: 0 <= k < |a.bitmap| && b.bitmap[k] != a.bitmap[k] ==> g.BBlock(k) in logged)
    && (forall k :: 0 <= k < |a.dinodes| && b.dinodes[k] != a.dinodes[k] ==> g.IBlock(k) in logged)
  }

  lemma NothingRecorded(g: Super, a: Image, logged: set<nat>)
    ensures Recorded(g, a, a, logged)
  {
  }

  lemma RecordedMore(g: Super, a: Image, b: Image, c: Image, l1: set<nat>, l2: set<nat>)
    requires Recorded(g, a, b, l1) && l1 <= l2 && Recorded(g, b, c, l2)
    ensures Recorded(g, a, c, l2)
  {
  }

  /** The block that holds position p of inode i is there and went through log_write. */
  ghost predicate InLog(g: Super, fs: Fs, i: nat, p: nat, logged: set<nat>)
    requires Shape(g, fs) && i < g.ninodes && p < MAXFILE * BSIZE
  {
    Slot(g, fs, i, SlotOf(p / BSIZE)) != 0 && Slot(g, fs, i, SlotOf(p / BSIZE)) in logged
  }

  ghost predicate PiecesLogged(g: Super, fs: Fs, i: nat, lo: nat, hi: nat, logged: set<nat>)
    requires Shape(g, fs) && i < g.ninodes && hi <= MAXFILE * BSIZE
  {
    forall p: nat :: lo <= p < hi ==> InLog(g, fs, i, p, logged)
  }

  /** A mapped block of inode i stays where it is. */
  ghost predicate SlotsStay(g: Super, fs: Fs, fs': Fs, i: nat) {
    && Shape(g, fs) && Shape(g, fs') && i < g.ninodes
    && forall k: nat {:trigger Slot(g, fs', i, k)} :: k < NSLOTS && Slot(g, fs, i, k) != 0 ==>
         Slot(g, fs', i, k) == Slot(g, fs, i, k)
  }

  lemma BlockRecorded(g: Super, a: Image, b: Image, k: nat, logged: set<nat>)
    requires k < |a.blocks| == |b.blocks| && b == a.(blocks := a.blocks[k := b.blocks[k]]) && k in logged
    ensures Recorded(g, a, b, logged)
  {
  }

  lemma InodeRecorded(g: Super, a: Image, b: Image, i: nat, logged: set<nat>)
    requires i < |a.dinodes| == |b.dinodes| && b == a.(dinodes := a.dinodes[i := b.dinodes[i]]) && g.IBlock(i) in logged
    ensures Recorded(g, a, b, logged)
  {
  }

  lemma BitRecorded(g: Super, a: Image, b: Image, k: nat, logged: set<nat>)
    requires k < |a.bitmap| == |b.bitmap| && b == a.(bitmap := a.bitmap[k := b.bitmap[k]]) && g.BBlock(k) in logged
    ensures Recorded(g, a, b, logged)
  {
  }

  /** The block that an iteration of writei maps and patches. */
  lemma PieceLogged(g: Super, fs0: Fs, fs1: Fs, fs2: Fs, fs3: Fs, i: nat, off0: nat, off: nat, m: nat, src: seq<Byte>,
                    r: nat, logged: set<nat>)
    requires Progress(g, fs0, fs1, i, off0, off, src) && m > 0 && off % BSIZE + m <= BSIZE
    requires off + m <= off0 + |src| <= MAXFILE * BSIZE && i < |fs0.inodes|
    requires BmapStep(g, fs1, fs2, i, NBlocks(Max(fs0.inodes[i].size, off)), off / BSIZE, r)
    requires r < |fs2.blocks| == |fs3.blocks| && fs3 == WithBlock(fs2, r, fs3.blocks[r]) && r in logged
    ensures Shape(g, fs3) && i < g.ninodes && PiecesLogged(g, fs3, i, off, off + m, logged) && SlotsStay(g, fs1, fs3, i)
  {
    hide Progress, NBlocks, Max, Owned, Slot;
    ProgressShape(g, fs0, fs1, i, off0, off, src);
    BmapStepOk(g, fs1, fs2, i, NBlocks(Max(fs0.inodes[i].size, off)), off / BSIZE, r);
    forall k: nat | k < NSLOTS
      ensures Slot(g, fs3, i, k) == Slot(g, fs2, i, k)
    {
      DataWriteSlots(g, fs2, i, off / BSIZE, fs3.blocks[r], i, k);
    }
    forall p: nat | off <= p < off + m
      ensures InLog(g, fs3, i, p, logged)
    {
      assert p / BSIZE == off / BSIZE;
    }
  }

  lemma PiecesMore(g: Super, fs: Fs, fs': Fs, i: nat, lo: nat, mid: nat, hi: nat, before: set<nat>, after: set<nat>)
    requires Shape(g, fs) && Shape(g, fs') && i < g.ninodes && lo <= mid <= hi <= MAXFILE * BSIZE
    requires PiecesLogged(g, fs, i, lo, mid, before) && SlotsStay(g, fs, fs', i) && before <= after
    requires PiecesLogged(g, fs', i, mid, hi, after)
    ensures PiecesLogged(g, fs', i, lo, hi, after)
  {
    hide Slot, Shape;
    forall p: nat | lo <= p < hi
      ensures InLog(g, fs', i, p, after)
    {
      if p < mid {
        assert InLog(g, fs, i, p, before);
      }
    }
  }

  /** A changed size moves no slot. */
  lemma PiecesSized(g: Super, fs: Fs, i: nat, size: nat, lo: nat, hi: nat, before: set<nat>, after: set<nat>)
    requires Shape(g, fs) && i < g.ninodes && hi <= MAXFILE * BSIZE && before <= after
    requires PiecesLogged(g, fs, i, lo, hi, before)
    ensures Shape(g, WithSize(fs, i, size)) && PiecesLogged(g, WithSize(fs, i, size), i, lo, hi, after)
  {
    forall p: nat | lo <= p < hi
      ensures InLog(g, WithSize(fs, i, size), i, p, after)
    {
      assert InLog(g, fs, i, p, before);
    }
  }

  /** A finished transaction: the blocks it logged and the disk before and after. */
  datatype Transaction = Transaction(logged: set<nat>, before: Image, after: Image)

  ghost predicate TransactionOk(g: Super, t: Transaction) {
    |t.logged| <= LogDisk.MAXOPBLOCKS && Recorded(g, t.before, t.after, t.logged)
  }

  /** The transactions lead from image a to image b without a gap. */
  ghost predicate Lead(g: Super, ts: seq<Transaction>, a: Image, b: Image) {
    && (forall k :: 0 <= k < |ts| ==> TransactionOk(g, ts[k]))
    && (forall k :: 0 < k < |ts| ==> ts[k].before == ts[k - 1].after)
    && if ts == [] then a == b else ts[0].before == a && ts[|ts| - 1].after == b
  }

  lemma NoTransactions(g: Super, a: Image, ts: seq<Transaction>)
    requires ts == []
    ensures Lead(g, ts, a, a)
  {
  }

  lemma LeadOn(g: Super, done: seq<Transaction>, ts: seq<Transaction>, ts': seq<Transaction>, a: Image, b: Image,
               c: Image,
               logged: set<nat>)
    requires done <= ts && Lead(g, ts[|done|..], a, b) && ts' == ts + [Transaction(logged, b, c)]
    requires |logged| <= LogDisk.MAXOPBLOCKS && Recorded(g, b, c, logged)
    ensures done <= ts' && Lead(g, ts'[|done|..], a, c)
  {
    hide Recorded;
    assert ts'[|done|..] == ts[|done|..] + [Transaction(logged, b, c)];
    LeadMore(g, ts[|done|..], a, Transaction(logged, b, c));
  }

  lemma LeadMore(g: Super, ts: seq<Transaction>, a: Image, t: Transaction)
    requires Lead(g, ts, a, t.before) && TransactionOk(g, t)
    ensures Lead(g, ts + [t], a, t.after)
  {
    hide TransactionOk;
  }

  class FileSystem {
    const sb: Super
    const bitmap: array<bool>
    const blocks: array<Bytes>
    const inodes: array<Inode>   // the in-memory inodes
    const dinodes: array<Inode>  // the inodes on disk
    ghost var logged: set<nat>   // blocks passed to log_write in this transaction
    ghost var transactions: seq<Transaction>  // the finished ones

    ghost predicate Tables()
      reads this
    {
      && sb.Valid() && bitmap.Length == sb.size && blocks.Length == sb.size
      && inodes.Length == sb.ninodes && dinodes.Length == sb.ninodes && inodes != dinodes
    }

    ghost function St(): Fs
      reads this, bitmap, blocks, inodes
    {
      Fs(bitmap[..], blocks[..], inodes[..])
    }

    ghost function OnDisk(): Image
      reads bitmap, blocks, dinodes
    {
      Image(bitmap[..], blocks[..], dinodes[..])
    }

    /** Between operations: exact ownership, no holes, and every inode written through to disk. */
    ghost predicate Valid()
      reads this, bitmap, blocks, inodes, dinodes
    {
      Tables() && FsOk(sb, St()) && dinodes[..] == inodes[..]
    }

    constructor (sb: Super, bits: seq<bool>, image: seq<Bytes>, table: seq<Inode>)
      requires sb.Valid() && |bits| == sb.size && |image| == sb.size && |table| == sb.ninodes
      ensures this.sb == sb && Tables() && St() == Fs(bits, image, table) && dinodes[..] == table && logged == {}
      ensures fresh(bitmap) && fresh(blocks) && fresh(inodes) && fresh(dinodes)
    {
      this.sb := sb;
      bitmap := new bool[|bits|](i requires 0 <= i < |bits| => bits[i]);
      blocks := new Bytes[|image|](i requires 0 <= i < |image| => image[i]);
      inodes := new Inode[|table|](i requires 0 <= i < |table| => table[i]);
      dinodes := new Inode[|table|](i requires 0 <= i < |table| => table[i]);
      logged := {};
      new;
      assert bitmap[..] == bits && blocks[..] == image && inodes[..] == table && dinodes[..] == table;
    }

    // ---- blocks ------------------------------------------------------------------------------------------------

    /** A changed buffer handed to log_write. */
    method LogBlock(b: nat, data: Bytes)
      requires Tables() && b < sb.size
      modifies blocks, this`logged
      ensures St() == WithBlock(old(St()), b, data)
      ensures logged == old(logged) + {b}
    {
      blocks[b] := data;
      logged := logged + {b};
    }

    /** balloc: the lowest free block, zeroed; panics when there is none. */
    method Balloc() returns (r: Option<nat>)
      requires Tables()
      modifies bitmap, blocks, this`logged
      ensures r.None? ==> St() == old(St()) && logged == old(logged) && forall b :: 0 <= b < sb.size ==> bitmap[b]
      ensures r.Some? ==>
                && r.value < sb.size && !old(bitmap[r.value]) && (forall b :: 0 <= b < r.value ==> old(bitmap[b]))
                && St() == Taken(old(St()), r.value)
                && logged == old(logged) + {sb.BBlock(r.value), r.value}
    {
      var b := 0;
      while b < sb.size
        invariant b % BPB == 0 && b < sb.size + BPB
        invariant forall x :: 0 <= x < b && x < sb.size ==> bitmap[x]
        invariant St() == old(St()) && logged == old(logged)
        decreases sb.size + BPB - b
      {
        var bi := 0;
        while bi < BPB && b + bi < sb.size
          invariant bi <= BPB
          invariant forall x :: 0 <= x < b + bi && x < sb.size ==> bitmap[x]
          invariant St() == old(St()) && logged == old(logged)
          decreases BPB - bi
        {
          if !bitmap[b + bi] {
            bitmap[b + bi] := true;
            logged := logged + {(b + bi) / BPB + sb.bmapstart};
            LogBlock(b + bi, Zeros());
            return Some(b + bi);
          }
          bi := bi + 1;
        }
        b := b + BPB;
      }
      r := None;
    }

    /** bfree; the result tells whether the "freeing free block" panic was hit. */
    method Bfree(b: nat) returns (panicked: bool)
      requires Tables() && b < sb.size
      modifies bitmap, this`logged
      ensures panicked == !old(bitmap[b])
      ensures St() == if panicked then old(St())
                      else Fs(old(St()).bitmap[b := false], old(St()).blocks, old(St()).inodes)
      ensures logged == old(logged) + if panicked then {} else {sb.BBlock(b)}
    {
      if !bitmap[b] {
        return true;
      }
      bitmap[b] := false;
      logged := logged + {b / BPB + sb.bmapstart};
      panicked := false;
    }

    // ---- bmap --------------------------------------------------------------------------------------------------

    /** bmap: the address of block bn of inode i, allocating it and the indirect block if necessary; None is one of its
        panics, out of range or out of blocks. */
    method Bmap(i: nat, bn: nat) returns (r: Option<nat>)
      requires Tables() && Owned(sb, St()) && i < sb.ninodes
      modifies bitmap, blocks, inodes, this`logged
      ensures bn >= MAXFILE ==> r.None? && St() == old(St()) && logged == old(logged)
      ensures old(logged) <= logged && Recorded(sb, old(OnDisk()), OnDisk(), logged)
      ensures r.None? ==> bn >= MAXFILE || forall b :: 0 <= b < sb.size ==> bitmap[b]
      ensures bn < MAXFILE && old(Slot(sb, St(), i, SlotOf(bn))) != 0 ==>
                r.Some? && r.value == old(Slot(sb, St(), i, SlotOf(bn))) && St() == old(St()) && logged == old(logged)
      ensures r.Some? && bn < MAXFILE ==> old(Slot(sb, St(), i, SlotOf(bn))) == 0 ==>
                && Grown(sb, old(St()), St(), i, bn, r.value)
                && logged <= old(logged) + {r.value, sb.BBlock(r.value)} + TableBlocks(sb, St(), i)
    {
      hide Owned;
      ghost var fs0 := St();
      OwnedShape(sb, fs0);
      if bn < NDIRECT {
        var addr := inodes[i].addrs[bn];
        if addr == 0 {
          r := AllocAddr(i, bn);
          if r.Some? {
            GrownOne(sb, fs0, St(), i, bn, r.value);
          }
          return;
        }
        return Some(addr);
      }
      hide Slot, Grown, TableBlocks;
      if bn < MAXFILE {
        r := BmapIndirect(i, bn);
      } else {
        r := None;
      }
    }

    /** The part of bmap behind the direct addresses. */
    method BmapIndirect(i: nat, bn: nat) returns (r: Option<nat>)
      requires Tables() && Owned(sb, St()) && i < sb.ninodes && NDIRECT <= bn < MAXFILE
      modifies bitmap, blocks, inodes, this`logged
      ensures r.None? ==> forall b :: 0 <= b < sb.size ==> bitmap[b]
      ensures old(logged) <= logged && Recorded(sb, old(OnDisk()), OnDisk(), logged)
      ensures old(Slot(sb, St(), i, SlotOf(bn))) != 0 ==>
                r.Some? && r.value == old(Slot(sb, St(), i, SlotOf(bn))) && St() == old(St()) && logged == old(logged)
      ensures r.Some? ==> old(Slot(sb, St(), i, SlotOf(bn))) == 0 ==>
                && Grown(sb, old(St()), St(), i, bn, r.value)
                && logged <= old(logged) + {r.value, sb.BBlock(r.value)} + TableBlocks(sb, St(), i)
    {
      hide Owned, Grown, Recorded;
      ghost var fs0, disk0 := St(), OnDisk();
      OwnedShape(sb, fs0);
      var e := bn - NDIRECT;
      var t := inodes[i].addrs[NDIRECT];
      ghost var mid := fs0;
      NothingRecorded(sb, disk0, logged);
      if t == 0 {
        var a := AllocAddr(i, NDIRECT);
        if a.None? {
          return None;
        }
        t := a.value;
        mid := St();
        SlotSetOwned(sb, fs0, mid, i, NDIRECT, t);
        assert Slot(sb, mid, i, SlotOf(bn)) == Slot(sb, fs0, i, SlotOf(bn));
      }
      ghost var disk1, logged1 := OnDisk(), logged;
      OwnedShape(sb, mid);
      assert t == Slot(sb, mid, i, NDIRECT);
      var addr := GetUint(blocks[t], e);
      if addr == 0 {
        r := AllocEntry(i, e);
        RecordedMore(sb, disk0, disk1, OnDisk(), logged1, logged);
        if r.Some? {
          if fs0 == mid {
            GrownOne(sb, fs0, St(), i, bn, r.value);
          } else {
            GrownTwo(sb, fs0, mid, St(), i, bn, t, r.value);
          }
        }
        return;
      }
      return Some(addr);
    }

    /** A fresh block for address k of inode i. */
    method AllocAddr(i: nat, k: nat) returns (r: Option<nat>)
      requires Tables() && Owned(sb, St()) && i < sb.ninodes && k <= NDIRECT && Slot(sb, St(), i, k) == 0
      modifies bitmap, blocks, inodes, this`logged
      ensures r.None? ==> forall b :: 0 <= b < sb.size ==> bitmap[b]
      ensures old(logged) <= logged && Recorded(sb, old(OnDisk()), OnDisk(), logged)
      ensures r.Some? ==> r.value != 0 && SlotSet(sb, old(St()), St(), i, k, r.value)
      ensures r.Some? ==> logged == old(logged) + {r.value, sb.BBlock(r.value)}
    {
      ghost var fs0 := St();
      r := Balloc();
      if r.Some? {
        hide Owned;
        inodes[i] := Inode(inodes[i].typ, inodes[i].size, inodes[i].addrs[k := r.value]);
        assert St() == WithAddr(Taken(fs0, r.value), i, k, r.value);
        AddrSet(sb, fs0, i, k, r.value);
        SlotSetOwned(sb, fs0, St(), i, k, r.value);
      }
    }

    /** A fresh block for entry e of inode i's indirect block, which is logged. */
    method AllocEntry(i: nat, e: nat) returns (r: Option<nat>)
      requires Tables() && Owned(sb, St()) && i < sb.ninodes && e < NINDIRECT
      requires Slot(sb, St(), i, NDIRECT) != 0 && Slot(sb, St(), i, NDIRECT + 1 + e) == 0
      modifies bitmap, blocks, this`logged
      ensures r.None? ==> forall b :: 0 <= b < sb.size ==> bitmap[b]
      ensures old(logged) <= logged && Recorded(sb, old(OnDisk()), OnDisk(), logged)
      ensures r.Some? ==> r.value != 0 && SlotSet(sb, old(St()), St(), i, NDIRECT + 1 + e, r.value)
      ensures r.Some? ==> logged == old(logged) + {r.value, sb.BBlock(r.value), old(Slot(sb, St(), i, NDIRECT))}
    {
      ghost var fs0 := St();
      r := Balloc();
      if r.Some? {
        hide Owned;
        var t := inodes[i].addrs[NDIRECT];
        TakenSlots(sb, fs0, r.value, i, NDIRECT);
        LogBlock(t, PutUint(blocks[t], e, r.value));
        assert St() == WithEntry(Taken(fs0, r.value), i, e, r.value);
        EntrySet(sb, fs0, i, e, r.value);
        SlotSetOwned(sb, fs0, St(), i, NDIRECT + 1 + e, r.value);
      }
    }

    // ---- reading -------------------------------------------------------------------------------------------------

    /** One iteration of readi; without holes its bmap call never allocates. */
    method ReadPiece(i: nat, off: nat, m: nat) returns (piece: seq<Byte>)
      requires Valid() && i < sb.ninodes && inodes[i].size <= MAXFILE * BSIZE
      requires m > 0 && off + m <= inodes[i].size && off % BSIZE + m <= BSIZE
      modifies bitmap, blocks, inodes, this`logged
      ensures Valid() && St() == old(St()) && logged == old(logged)
      ensures inodes[i].size <= MAXFILE * BSIZE && piece == Content(sb, St(), i)[off..off + m]
    {
      hide Owned, Mapped;
      ghost var fs0 := St();
      OwnedShape(sb, fs0);
      MappedBlock(sb, fs0, i, off);
      var bp := Bmap(i, off / BSIZE);
      piece := blocks[bp.value][off % BSIZE..off % BSIZE + m];
      PieceOfContent(sb, fs0, i, off, m);
    }

    /** readi of a file or directory: None is -1. */
    method Readi(i: nat, off: nat, n: nat) returns (r: ReadResult)
      requires Valid() && i < sb.ninodes && off < UINT && n < UINT
      modifies bitmap, blocks, inodes, this`logged
      ensures Valid() && St() == old(St()) && logged == old(logged)
      ensures inodes[i].size <= MAXFILE * BSIZE
      ensures r.ReadByDriver? <==> inodes[i].typ == Dev
      ensures r.NotRead? <==> inodes[i].typ != Dev && (off > inodes[i].size || off + n >= UINT)
      ensures r.Read? ==>
                r.bytes == Content(sb, St(), i)[off..if off + n > inodes[i].size then inodes[i].size else off + n]
    {
      hide Owned, Mapped, Slot;
      ghost var fs0 := St();
      OwnedShape(sb, fs0);
      SizeBound(sb, fs0, i);
      if inodes[i].typ == Dev {
        var ret: int := *;
        return ReadByDriver(ret);
      }
      var size := inodes[i].size;
      if off > size || (off + n) % UINT < off {
        return NotRead;
      }
      var end := if off + n > size then size else off + n;
      var buf: seq<Byte> := [];
      var pos := off;
      ghost var c := Content(sb, fs0, i);
      while pos < end
        invariant off <= pos <= end && Valid() && St() == fs0 && logged == old(logged)
        invariant buf == c[off..pos]
        decreases end - pos
      {
        var m := if end - pos < BSIZE - pos % BSIZE then end - pos else BSIZE - pos % BSIZE;
        var piece := ReadPiece(i, pos, m);
        assert c[off..pos + m] == c[off..pos] + c[pos..pos + m];
        buf := buf + piece;
        pos := pos + m;
      }
      r := Read(buf);
    }

    // ---- writing -------------------------------------------------------------------------------------------------

    /** iupdate: the in-memory inode goes to disk. */
    method Iupdate(i: nat)
      requires Tables() && i < sb.ninodes
      modifies dinodes, this`logged
      ensures dinodes[..] == old(dinodes[..])[i := inodes[i]]
      ensures logged == old(logged) + {sb.IBlock(i)}
    {
      dinodes[i] := inodes[i];
      logged := logged + {sb.IBlock(i)};
    }

    /** The block an iteration of writei works on, mapped if it was not. */
    method MapPiece(i: nat, ghost fs0: Fs, ghost off0: nat, off: nat, ghost src: seq<Byte>)
      returns (r: Option<nat>, ghost fresh_block: bool)
      requires Tables() && Progress(sb, fs0, St(), i, off0, off, src) && off < off0 + |src|
      modifies bitmap, blocks, inodes, this`logged
      ensures r.None? ==> forall b :: 0 <= b < sb.size ==> bitmap[b]
      ensures old(logged) <= logged && Recorded(sb, old(OnDisk()), OnDisk(), logged)
      ensures i < |fs0.inodes| && (fresh_block ==> off % BSIZE == 0 && off >= fs0.inodes[i].size)
      ensures r.Some? ==> BmapStep(sb, old(St()), St(), i, NBlocks(Max(fs0.inodes[i].size, off)), off / BSIZE, r.value)
      ensures r.Some? ==> LogGrowth(old(St()), St(), old(logged), logged, i, fresh_block, r.value)
      ensures r.Some? && !fresh_block ==> inodes[..] == old(inodes[..])
    {
      hide Owned, OkBut, BmapStep, Grown, Progress, NBlocks, Max;
      ghost var fs1 := St();
      ProgressShape(sb, fs0, fs1, i, off0, off, src);
      BlocksStep(fs0.inodes[i].size, off, 1);
      fresh_block := Slot(sb, fs1, i, SlotOf(off / BSIZE)) == 0;
      r := Bmap(i, off / BSIZE);
      if r.Some? {
        MakeBmapStep(sb, fs0, fs1, St(), i, off0, off, src, r.value);
        BmapTables(sb, fs1, St(), i, off / BSIZE, r.value, fresh_block);
      }
    }

    /** One iteration of writei: map the block at off and patch m bytes of src, from tot on, into it. */
    method WritePiece(i: nat, ghost fs0: Fs, ghost off0: nat, off: nat, m: nat, src: seq<Byte>, tot: nat)
      returns (ok: bool, ghost fresh_block: bool, ghost r: nat)
      requires Tables() && Progress(sb, fs0, St(), i, off0, off, src)
      requires off == off0 + tot && m > 0 && tot + m <= |src|
      requires off % BSIZE + m <= BSIZE && (off % BSIZE + m == BSIZE || off + m == off0 + |src|)
      modifies bitmap, blocks, inodes, this`logged
      ensures !ok ==> forall b :: 0 <= b < sb.size ==> bitmap[b]
      ensures old(logged) <= logged && Recorded(sb, old(OnDisk()), OnDisk(), logged)
      ensures ok ==> Shape(sb, St()) && i < sb.ninodes && off + m <= MAXFILE * BSIZE
      ensures ok ==> PiecesLogged(sb, St(), i, off, off + m, logged)
      ensures ok ==> SlotsStay(sb, old(St()), St(), i)
      ensures ok ==> Progress(sb, fs0, St(), i, off0, off + m, src)
      ensures ok ==> i < |fs0.inodes| && (fresh_block ==> off % BSIZE == 0 && off >= fs0.inodes[i].size)
      ensures ok ==> LogGrowth(old(St()), St(), old(logged), logged, i, fresh_block, r)
      ensures ok && !fresh_block ==> inodes[..] == old(inodes[..])
    {
      hide BmapStep, Progress, NBlocks, LogGrowth, Max, Recorded, PiecesLogged, SlotsStay;
      ghost var fs1, before, disk1 := St(), logged, OnDisk();
      var bp;
      bp, fresh_block := MapPiece(i, fs0, off0, off, src);
      if bp.None? {
        return false, fresh_block, 0;
      }
      ghost var fs2, mapped, disk2 := St(), logged, OnDisk();
      r := bp.value;
      ProgressStep(sb, fs0, fs1, fs2, i, off0, off, m, src, r);
      LogBlock(bp.value, Patched(blocks[bp.value], off % BSIZE, src, tot, m));
      BlockRecorded(sb, disk2, OnDisk(), bp.value, logged);
      RecordedMore(sb, disk1, disk2, OnDisk(), mapped, logged);
      ProgressShape(sb, fs0, St(), i, off0, off + m, src);
      PieceLogged(sb, fs0, fs1, fs2, St(), i, off0, off, m, src, r, logged);
      LoggedPiece(fs1, fs2, St(), before, mapped, logged, i, fresh_block, r);
      ok := true;
    }

    /** What an iteration adds to the log: the data block, and for a fresh one its bitmap block and the indirect
        block's pair. */
    ghost predicate LogGrowth(fs: Fs, fs': Fs, before: set<nat>, after: set<nat>, i: nat, fresh_block: bool, r: nat) {
      && Shape(sb, fs) && Shape(sb, fs') && i < sb.ninodes
      && TableBlocks(sb, fs, i) <= TableBlocks(sb, fs', i)
      && after <= before + PieceBlocks(sb, fresh_block, r) + TableBlocks(sb, fs', i)
    }

    /** The patched block is one of those counted. */
    lemma LoggedPiece(fs: Fs, fs1: Fs, fs2: Fs, before: set<nat>, after: set<nat>, after': set<nat>, i: nat,
                      fresh_block: bool, r: nat)
      requires LogGrowth(fs, fs1, before, after, i, fresh_block, r) && after' <= after + {r}
      requires Shape(sb, fs2) && fs2.inodes == fs1.inodes
      ensures LogGrowth(fs, fs2, before, after', i, fresh_block, r)
    {
    }

    /** How far the loop of writei has come after tot bytes: contents, and the blocks logged since it began. */
    ghost predicate LoopState(fs0: Fs, disk0: Image, i: nat, off0: nat, src: seq<Byte>, tot: nat, before: set<nat>,
                              own: set<nat>, table: set<nat>)
      reads this, bitmap, blocks, inodes, dinodes
    {
      && Tables() && i < |fs0.inodes| && before <= logged && Recorded(sb, disk0, OnDisk(), logged)
      && off0 + tot <= MAXFILE * BSIZE && i < sb.ninodes && Shape(sb, St())
      && PiecesLogged(sb, St(), i, off0, off0 + tot, logged)
      && off0 <= fs0.inodes[i].size && tot <= |src|
      && Progress(sb, fs0, St(), i, off0, off0 + tot, src)
      && Shape(sb, St()) && table == TableBlocks(sb, St(), i) && logged <= before + own + table
      && |own| <= Touched(off0, tot) + Fresh(off0, tot, fs0.inodes[i].size)
      && (0 < tot < |src| ==> (off0 + tot) % BSIZE == 0)
      && (off0 + tot <= fs0.inodes[i].size ==> inodes[..] == fs0.inodes)
    }

    /** An iteration of writei, with its share of the log. */
    method WriteNext(i: nat, ghost fs0: Fs, ghost disk0: Image, off0: nat, src: seq<Byte>, tot: nat,
                     ghost before: set<nat>, ghost own: set<nat>, ghost table: set<nat>)
      returns (ok: bool, m: nat, ghost own': set<nat>, ghost table': set<nat>)
      requires LoopState(fs0, disk0, i, off0, src, tot, before, own, table) && tot < |src| && i < sb.ninodes
      modifies bitmap, blocks, inodes, this`logged
      ensures !ok ==> forall b :: 0 <= b < sb.size ==> bitmap[b]
      ensures before <= logged && Recorded(sb, disk0, OnDisk(), logged)
      ensures ok ==> m > 0 && LoopState(fs0, disk0, i, off0, src, tot + m, before, own', table')
    {
      hide Progress, LogGrowth, Touched, Fresh, PieceBlocks, TableBlocks, Shape, Recorded, PiecesLogged, SlotsStay;
      var off := off0 + tot;
      m := if |src| - tot < BSIZE - off % BSIZE then |src| - tot else BSIZE - off % BSIZE;
      ghost var fs1, was, disk1 := St(), logged, OnDisk();
      ghost var fresh_block, r;
      ok, fresh_block, r := WritePiece(i, fs0, off0, off, m, src, tot);
      RecordedMore(sb, disk0, disk1, OnDisk(), was, logged);
      if !ok {
        return false, m, {}, {};
      }
      PiecesMore(sb, fs1, St(), i, off0, off, off + m, was, logged);
      CountStep(off0, tot, m, fs0.inodes[i].size);
      GrowthOf(fs1, was, i, fresh_block, r);
      ghost var piece := PieceBlocks(sb, fresh_block, r);
      UnionBound(own, piece);
      own', table' := own + piece, TableBlocks(sb, St(), i);
      LoggedGrows(before, was, logged, own, piece, table, table');
    }

    /** The loop of writei. */
    method WritePieces(i: nat, off0: nat, src: seq<Byte>) returns (ok: bool, ghost added: set<nat>)
      requires Valid() && i < sb.ninodes
      requires off0 <= inodes[i].size && off0 + |src| <= MAXFILE * BSIZE
      modifies bitmap, blocks, inodes, this`logged
      ensures !ok ==> forall b :: 0 <= b < sb.size ==> bitmap[b]
      ensures old(logged) <= logged && Recorded(sb, old(OnDisk()), OnDisk(), logged)
      ensures ok ==> Shape(sb, St()) && PiecesLogged(sb, St(), i, off0, off0 + |src|, logged)
      ensures ok ==> Progress(sb, old(St()), St(), i, off0, off0 + |src|, src)
      ensures ok ==> logged <= old(logged) + added
      ensures ok ==> |added| <= Touched(off0, |src|) + Fresh(off0, |src|, old(inodes[i].size)) + 2
      ensures ok && off0 + |src| <= old(inodes[i].size) ==> inodes[..] == old(inodes[..])
    {
      hide Progress, FsOk, Touched, Fresh, TableBlocks, Shape, Recorded, PiecesLogged;
      ghost var fs0, before, disk0 := St(), logged, OnDisk();
      ProgressStart(sb, fs0, i, off0, src);
      ProgressShape(sb, fs0, fs0, i, off0, off0, src);
      CountStart(off0, fs0.inodes[i].size);
      NothingRecorded(sb, disk0, logged);
      NoPieces(sb, fs0, i, off0, logged);
      ghost var own: set<nat> := {};
      ghost var table := TableBlocks(sb, St(), i);
      var tot := 0;
      while tot < |src|
        invariant LoopState(fs0, disk0, i, off0, src, tot, before, own, table)
        decreases |src| - tot
      {
        var m;
        ok, m, own, table := WriteNext(i, fs0, disk0, off0, src, tot, before, own, table);
        if !ok {
          return false, {};
        }
        tot := tot + m;
      }
      TableBound(i, own, table);
      ok, added := true, own + table;
    }

    lemma NoPieces(g: Super, fs: Fs, i: nat, off: nat, logged: set<nat>)
      requires Shape(g, fs) && i < g.ninodes && off <= MAXFILE * BSIZE
      ensures PiecesLogged(g, fs, i, off, off, logged)
    {
    }

    lemma TableBound(i: nat, own: set<nat>, table: set<nat>)
      requires Tables() && Shape(sb, St()) && i < sb.ninodes && table == TableBlocks(sb, St(), i)
      ensures |own + table| <= |own| + 2
    {
      UnionBound(own, table);
    }

    /** writei. */
    method Writei(i: nat, off: nat, src: seq<Byte>) returns (r: WriteResult, ghost added: set<nat>)
      requires Valid() && i < sb.ninodes && off < UINT && |src| < UINT
      modifies bitmap, blocks, inodes, dinodes, this`logged
      ensures r.OutOfBlocks? ==> forall b :: 0 <= b < sb.size ==> bitmap[b]
      ensures old(logged) <= logged && Recorded(sb, old(OnDisk()), OnDisk(), logged)
      ensures r.Wrote? ==>
                off + |src| <= MAXFILE * BSIZE && Shape(sb, St()) && PiecesLogged(sb, St(), i, off, off + |src|, logged)
      ensures r.WroteByDriver? <==> old(inodes[i].typ) == Dev
      ensures r.WroteByDriver? ==> Valid() && St() == old(St()) && logged == old(logged)
      ensures r.Refused? <==>
                old(inodes[i].typ) != Dev
                && (off > old(inodes[i].size) || off + |src| >= UINT || off + |src| > MAXFILE * BSIZE)
      ensures r.Refused? ==> Valid() && St() == old(St()) && logged == old(logged)
      ensures r.Wrote? ==> r.n == |src| && Valid() && old(inodes[i].size) <= MAXFILE * BSIZE
      ensures r.Wrote? ==> FileBecomes(sb, old(St()), St(), i, Overwritten(old(Content(sb, St(), i)), off, src))
      ensures r.Wrote? ==> logged <= old(logged) + added
      ensures r.Wrote? ==> |added| <= Touched(off, |src|) + Fresh(off, |src|, old(inodes[i].size)) + 3
    {
      hide Progress, FileBecomes, Touched, Fresh, Owned, Mapped, Recorded, PiecesLogged;
      ghost var fs0, disk0 := St(), OnDisk();
      NothingRecorded(sb, disk0, logged);
      SizeBound(sb, fs0, i);
      added := {};
      var n := |src|;
      if inodes[i].typ == Dev {
        var ret: int := *;
        return WroteByDriver(ret), added;
      }
      if off > inodes[i].size || (off + n) % UINT < off {
        return Refused, added;
      }
      if off + n > MAXFILE * BSIZE {
        return Refused, added;
      }
      var ok;
      ok, added := WritePieces(i, off, src);
      if !ok {
        return OutOfBlocks, added;
      }
      ghost var fs, disk1, logged1 := St(), OnDisk(), logged;
      ProgressShape(sb, fs0, fs, i, off, off + n, src);
      if n > 0 && off + n > inodes[i].size {
        inodes[i] := Inode(inodes[i].typ, off + n, inodes[i].addrs);
        Iupdate(i);
        UnionBound(added, {sb.IBlock(i)});
        added := added + {sb.IBlock(i)};
        InodeRecorded(sb, disk1, OnDisk(), i, logged);
        RecordedMore(sb, disk0, disk1, OnDisk(), logged1, logged);
      }
      PiecesSized(sb, fs, i, Max(fs0.inodes[i].size, off + n), off, off + n, logged1, logged);
      assert St().inodes == WithSize(fs, i, Max(fs0.inodes[i].size, off + n)).inodes;
      WriteBecomes(sb, fs0, fs, St(), i, off, src);
      BecomesOk(sb, fs0, St(), i, Overwritten(Content(sb, fs0, i), off, src));
      r := Wrote(n);
    }

    // ---- truncating ----------------------------------------------------------------------------------------------

    /** bfree of a slot's block, if set: the block was allocated, so the panic cannot be hit. */
    method FreeSlot(i: nat, ghost fs0: Fs, k: nat, ghost a: nat, ghost e: nat, b: nat)
      requires Tables() && Owned(sb, fs0) && i < sb.ninodes && k < NSLOTS && b == Slot(sb, fs0, i, k)
      requires Freed(sb, fs0, bitmap[..], i, a, e) && !(k < a || NDIRECT < k < e)
      modifies bitmap, this`logged
      ensures FreedAlso(sb, fs0, bitmap[..], i, a, e, k)
      ensures logged == old(logged) + if b == 0 then {} else {sb.BBlock(b)}
      ensures Recorded(sb, old(OnDisk()), OnDisk(), logged)
    {
      ghost var disk0 := OnDisk();
      if b != 0 {
        SlotNotFreedYet(sb, fs0, bitmap[..], i, a, e, k);
        ghost var bits := bitmap[..];
        var panicked := Bfree(b);
        assert !panicked;
        assert bitmap[..] == bits[b := false];
        BitRecorded(sb, disk0, OnDisk(), b, logged);
        FreedOne(sb, fs0, bits, i, a, e, k);
      }
    }

    /** itrunc on its way: addresses below n are cleared, the blocks of slots below a and of entries below slot e freed,
        and everything since disk0 is logged. */
    ghost predicate Truncating(fs0: Fs, disk0: Image, before: set<nat>, i: nat, n: nat, a: nat, e: nat)
      reads this, bitmap, blocks, inodes, dinodes
    {
      && Tables() && i < sb.ninodes && Shape(sb, fs0) && blocks[..] == fs0.blocks && dinodes[..] == fs0.inodes
      && inodes[..] == fs0.inodes[i := Inode(fs0.inodes[i].typ, fs0.inodes[i].size, Cleared(fs0.inodes[i].addrs, n))]
      && Freed(sb, fs0, bitmap[..], i, a, e)
      && before <= logged <= before + SlotBits(sb, fs0, i) && Recorded(sb, disk0, OnDisk(), logged)
    }

    /** Slot k's block goes as well. */
    method FreeNext(i: nat, ghost fs0: Fs, ghost disk0: Image, ghost before: set<nat>, k: nat, ghost n: nat,
                    ghost a: nat, ghost e: nat, b: nat)
      requires Truncating(fs0, disk0, before, i, n, a, e) && Owned(sb, fs0)
      requires k < NSLOTS && !(k < a || NDIRECT < k < e) && b == Slot(sb, fs0, i, k)
      modifies bitmap, this`logged
      ensures FreedAlso(sb, fs0, bitmap[..], i, a, e, k)
      ensures before <= logged <= before + SlotBits(sb, fs0, i) && Recorded(sb, disk0, OnDisk(), logged)
    {
      hide Owned, FreedAlso, Recorded, SlotBits, Slot, Freed, Cleared;
      ghost var disk1, logged1 := OnDisk(), logged;
      FreeSlot(i, fs0, k, a, e, b);
      SlotBitsHold(sb, fs0, i, k);
      RecordedMore(sb, disk0, disk1, OnDisk(), logged1, logged);
    }

    /** The direct blocks. */
    method TruncAddrs(i: nat, ghost fs0: Fs, ghost disk0: Image, ghost before: set<nat>)
      requires Truncating(fs0, disk0, before, i, 0, 0, 0) && Owned(sb, fs0)
      modifies bitmap, inodes, this`logged
      ensures Truncating(fs0, disk0, before, i, NDIRECT, NDIRECT, 0)
    {
      hide Owned, FreedAlso, Recorded, SlotBits, Freed;
      ghost var ino := fs0.inodes[i];
      for k := 0 to NDIRECT
        invariant Truncating(fs0, disk0, before, i, k, k, 0)
      {
        var addr := inodes[i].addrs[k];
        if addr != 0 {
          FreeNext(i, fs0, disk0, before, k, k, k, 0, addr);
          inodes[i] := Inode(inodes[i].typ, inodes[i].size, inodes[i].addrs[k := 0]);
        } else {
          FreedZero(sb, fs0, bitmap[..], i, k, 0, k);
        }
        FreedNextAddr(sb, fs0, bitmap[..], i, k, 0);
        assert inodes[i].addrs == Cleared(ino.addrs, k + 1);
      }
    }

    /** The blocks in indirect block t, and it itself. */
    method TruncEntries(i: nat, t: nat, ghost fs0: Fs, ghost disk0: Image, ghost before: set<nat>)
      requires Truncating(fs0, disk0, before, i, NDIRECT, NDIRECT, 0) && Owned(sb, fs0)
      requires t == Slot(sb, fs0, i, NDIRECT) != 0 && t < sb.size
      modifies bitmap, inodes, this`logged
      ensures Truncating(fs0, disk0, before, i, NDIRECT + 1, NDIRECT + 1, NSLOTS)
    {
      hide Owned, FreedAlso, Recorded, SlotBits, Freed;
      ghost var ino := fs0.inodes[i];
      FreedEntries(sb, fs0, bitmap[..], i);
      for j := 0 to NINDIRECT
        invariant Truncating(fs0, disk0, before, i, NDIRECT, NDIRECT, NDIRECT + 1 + j)
      {
        var addr := GetUint(blocks[t], j);
        FreeNext(i, fs0, disk0, before, NDIRECT + 1 + j, NDIRECT, NDIRECT, NDIRECT + 1 + j, addr);
        FreedNextEntry(sb, fs0, bitmap[..], i, NDIRECT, NDIRECT + 1 + j);
      }
      FreeNext(i, fs0, disk0, before, NDIRECT, NDIRECT, NDIRECT, NSLOTS, t);
      FreedNextAddr(sb, fs0, bitmap[..], i, NDIRECT, NSLOTS);
      inodes[i] := Inode(inodes[i].typ, inodes[i].size, inodes[i].addrs[NDIRECT := 0]);
      assert inodes[i].addrs == Cleared(ino.addrs, NDIRECT + 1);
    }

    /** itrunc. */
    method Itrunc(i: nat)
      requires Valid() && i < sb.ninodes
      modifies bitmap, inodes, dinodes, this`logged
      ensures Valid() && Truncated(sb, old(St()), St(), i)
      ensures FileBecomes(sb, old(St()), St(), i, [])
      ensures old(logged) <= logged && Recorded(sb, old(OnDisk()), OnDisk(), logged)
      ensures Shape(sb, old(St())) && logged <= old(logged) + SlotBits(sb, old(St()), i) + {sb.IBlock(i)}
    {
      hide Owned, Mapped, FreedAlso, FileBecomes, Recorded, SlotBits;
      ghost var fs0, disk0, before := St(), OnDisk(), logged;
      NothingRecorded(sb, disk0, logged);
      OwnedShape(sb, fs0);
      FreedNone(sb, fs0, i);
      assert inodes[i].addrs == Cleared(inodes[i].addrs, 0);
      TruncAddrs(i, fs0, disk0, before);
      var t := inodes[i].addrs[NDIRECT];
      if t != 0 {
        TruncEntries(i, t, fs0, disk0, before);
      }
      FreedAll(sb, fs0, bitmap[..], i, t);
      inodes[i] := Inode(inodes[i].typ, 0, inodes[i].addrs);
      assert inodes[i].addrs == NoAddrs();
      ghost var disk2, logged2 := OnDisk(), logged;
      Iupdate(i);
      InodeRecorded(sb, disk2, OnDisk(), i, logged);
      RecordedMore(sb, disk0, disk2, OnDisk(), logged2, logged);
      assert dinodes[..] == inodes[..];
      TruncBecomes(sb, fs0, St(), i);
      BecomesOk(sb, fs0, St(), i, []);
    }

    // ---- filewrite --------------------------------------------------------------------------------------------------

    /** begin_op and end_op around one chunk: the transaction's logged blocks are recorded. */
    method BeginTransaction()
      modifies this`logged
      ensures logged == {}
    {
      logged := {};
    }

    method EndTransaction(ghost before: Image)
      modifies this`transactions
      ensures transactions == old(transactions) + [Transaction(logged, before, OnDisk())]
    {
      transactions := transactions + [Transaction(logged, before, OnDisk())];
    }

    /** One transaction of filewrite; it logs every block it changes, and no more than MAXOPBLOCKS. */
    method WriteChunk(i: nat, off: nat, src: seq<Byte>) returns (w: WriteResult)
      requires Valid() && i < sb.ninodes && off < UINT && 0 < |src| <= CHUNK
      modifies bitmap, blocks, inodes, dinodes, this`logged, this`transactions
      ensures w.OutOfBlocks? ==> transactions == old(transactions) && forall b :: 0 <= b < sb.size ==> bitmap[b]
      ensures !w.OutOfBlocks? ==>
                && Valid() && transactions == old(transactions) + [Transaction(logged, old(OnDisk()), OnDisk())]
                && |logged| <= LogDisk.MAXOPBLOCKS && Recorded(sb, old(OnDisk()), OnDisk(), logged)
      ensures w.Wrote? ==>
                off + |src| <= MAXFILE * BSIZE && Shape(sb, St()) && PiecesLogged(sb, St(), i, off, off + |src|, logged)
      ensures w.WroteByDriver? <==> old(inodes[i].typ) == Dev
      ensures w.Refused? <==>
                old(inodes[i].typ) != Dev
                && (off > old(inodes[i].size) || off + |src| >= UINT || off + |src| > MAXFILE * BSIZE)
      ensures w.Refused? || w.WroteByDriver? ==> St() == old(St())
      ensures w.Wrote? ==> w.n == |src| && old(inodes[i].size) <= MAXFILE * BSIZE
      ensures w.Wrote? ==> FileBecomes(sb, old(St()), St(), i, Overwritten(old(Content(sb, St(), i)), off, src))
    {
      hide Recorded, PiecesLogged, FileBecomes;
      ghost var size, before := inodes[i].size, OnDisk();
      BeginTransaction();
      ghost var added;
      w, added := Writei(i, off, src);
      if w.OutOfBlocks? {
        return;
      }
      if w.Wrote? {
        ChunkFits(off, |src|, size);
        SubsetSize(logged, added);
      }
      EndTransaction(before);
    }

    /** The file's contents when the first pos bytes of filewrite's buffer have been stored. */
    ghost predicate WrittenSoFar(fs0: Fs, i: nat, f_off: nat, addr: seq<Byte>, pos: nat)
      reads this, bitmap, blocks, inodes, dinodes
    {
      && Valid() && FsOk(sb, fs0) && i < sb.ninodes && fs0.inodes[i].size <= MAXFILE * BSIZE && pos <= |addr|
      && (pos > 0 ==> f_off <= fs0.inodes[i].size)
      && FileBecomes(sb, fs0, St(), i, if pos == 0 then Content(sb, fs0, i)
                                       else Overwritten(Content(sb, fs0, i), f_off, addr[..pos]))
    }

    /** The loop of filewrite is over at off: at the end, or where writei refuses the next chunk. */
    ghost predicate StoppedByRefusal(i: nat, off: nat, end: nat)
      reads this, inodes
    {
      off < end && i < inodes.Length ==>
        var n1 := if end - off > CHUNK then CHUNK else end - off;
        off > inodes[i].size || off + n1 >= UINT || off + n1 > MAXFILE * BSIZE
    }

    /** filewrite on an inode: chunks of at most three blocks, each in a transaction of its own; the result, and the new
        file offset. Only a driver can write short. */
    method Filewrite(i: nat, f_off: nat, addr: seq<Byte>) returns (r: FilewriteResult, off: nat)
      requires Valid() && i < sb.ninodes && f_off < UINT && |addr| < UINT
      modifies bitmap, blocks, inodes, dinodes, this`logged, this`transactions
      ensures old(transactions) <= transactions
      ensures !r.NoBlocks? ==>
                Lead(sb, transactions[|old(transactions)|..], old(OnDisk()), OnDisk())
      ensures r.NoBlocks? ==> forall b :: 0 <= b < sb.size ==> bitmap[b]
      ensures r.ShortFilewrite? ==> old(inodes[i].typ) == Dev
      ensures r.NoBlocks? ==> old(inodes[i].typ) != Dev
      ensures old(inodes[i].typ) == Dev ==> Valid() && St() == old(St())
      ensures r.Returned? ==> r.n == |addr| || r.n == -1
      ensures r.Returned? && old(inodes[i].typ) != Dev ==>
                && f_off <= off <= f_off + |addr| && WrittenSoFar(old(St()), i, f_off, addr, off - f_off)
                && r.n == (if off == f_off + |addr| then |addr| else -1)
                && StoppedByRefusal(i, off, f_off + |addr|)
                && (r.n == |addr| ==> |transactions| == |old(transactions)| + (|addr| + 1535) / 1536)
    {
      hide Valid, FsOk, FileBecomes, Overwritten, Content, WrittenSoFar, Lead;
      Sizes();
      if inodes[i].typ == Dev {
        r, off := DeviceWrite(i, f_off, addr);
      } else {
        r, off := InodeWrite(i, f_off, addr);
      }
    }

    /** How far filewrite's loop has come: contents, and transactions of 1536 bytes each. */
    ghost predicate Filewriting(fs0: Fs, disk0: Image, done: seq<Transaction>, i: nat, f_off: nat, addr: seq<Byte>,
                                pos: nat)
      reads this, bitmap, blocks, inodes, dinodes
    {
      && WrittenSoFar(fs0, i, f_off, addr, pos) && i < inodes.Length && inodes[i].typ != Dev
      && (f_off + pos < UINT || pos == |addr|)
      && done <= transactions && Lead(sb, transactions[|done|..], disk0, OnDisk())
      && |transactions| == |done| + (pos + 1535) / 1536 && (pos % 1536 == 0 || pos == |addr|)
    }

    /** One chunk. */
    method ChunkNext(i: nat, f_off: nat, addr: seq<Byte>, pos: nat, ghost fs0: Fs, ghost disk0: Image,
                     ghost done: seq<Transaction>)
      returns (w: WriteResult)
      requires Filewriting(fs0, disk0, done, i, f_off, addr, pos) && pos < |addr| < UINT
      modifies bitmap, blocks, inodes, dinodes, this`logged, this`transactions
      ensures done <= transactions && !w.WroteByDriver?
      ensures w.OutOfBlocks? ==> forall b :: 0 <= b < sb.size ==> bitmap[b]
      ensures w.Wrote? ==>
                && w.n == (if |addr| - pos > CHUNK then CHUNK else |addr| - pos)
                && Filewriting(fs0, disk0, done, i, f_off, addr, pos + w.n)
      ensures w.Refused? ==> WrittenSoFar(fs0, i, f_off, addr, pos) && i < inodes.Length
      ensures w.Refused? ==> Lead(sb, transactions[|done|..], disk0, OnDisk())
      ensures w.Refused? ==> StoppedByRefusal(i, f_off + pos, f_off + |addr|)
    {
      hide Valid, FsOk, FileBecomes, Overwritten, Content, Lead, Recorded, PiecesLogged, Shape;
      var n1 := if |addr| - pos > CHUNK then CHUNK else |addr| - pos;
      ghost var fs1 := St();
      SoFarFacts(fs0, i, f_off, addr, pos);
      ghost var ts, disk1 := transactions, OnDisk();
      w := WriteChunk(i, f_off + pos, addr[pos..pos + n1]);
      if w.OutOfBlocks? {
        return;
      }
      LeadOn(sb, done, ts, transactions, disk0, disk1, OnDisk(), logged);
      if w.Wrote? {
        OneChunkMore(fs0, fs1, i, f_off, addr, pos, n1);
      }
    }

    /** filewrite's loop on a file or directory. */
    method InodeWrite(i: nat, f_off: nat, addr: seq<Byte>) returns (r: FilewriteResult, off: nat)
      requires Valid() && i < sb.ninodes && inodes[i].typ != Dev && f_off < UINT && |addr| < UINT
      modifies bitmap, blocks, inodes, dinodes, this`logged, this`transactions
      ensures old(transactions) <= transactions
      ensures !r.NoBlocks? ==> Lead(sb, transactions[|old(transactions)|..], old(OnDisk()), OnDisk())
      ensures r.NoBlocks? ==> forall b :: 0 <= b < sb.size ==> bitmap[b]
      ensures r.Returned? ==> f_off <= off <= f_off + |addr| && WrittenSoFar(old(St()), i, f_off, addr, off - f_off)
      ensures r.Returned? ==> r.n == if off == f_off + |addr| then |addr| else -1
      ensures r.Returned? ==> StoppedByRefusal(i, off, f_off + |addr|)
      ensures r == Returned(|addr|) ==> |transactions| == |old(transactions)| + (|addr| + 1535) / 1536
      ensures !r.ShortFilewrite?
    {
      hide Valid, WrittenSoFar, Lead;
      ghost var fs0, disk0, done := St(), OnDisk(), transactions;
      NoTransactions(sb, disk0, transactions[|done|..]);
      StartWriting(i, f_off, addr);
      var pos, n := 0, |addr|;
      off := f_off;
      while pos < n
        invariant pos <= n && off == f_off + pos && Filewriting(fs0, disk0, done, i, f_off, addr, pos)
        decreases n - pos
      {
        var n1 := if n - pos > CHUNK then CHUNK else n - pos;
        var w := ChunkNext(i, f_off, addr, pos, fs0, disk0, done);
        if w.OutOfBlocks? {
          return NoBlocks, off;
        }
        if w.Refused? {
          break;
        }
        if w.n != n1 {
          return ShortFilewrite, off;
        }
        pos := pos + n1;
        off := off + n1;
      }
      r := Returned(if pos == n then n else -1);
    }

    /** filewrite's loop on a device: its driver may refuse or write short; no file changes. */
    method DeviceWrite(i: nat, f_off: nat, addr: seq<Byte>) returns (r: FilewriteResult, off: nat)
      requires Valid() && i < sb.ninodes && inodes[i].typ == Dev && f_off < UINT && |addr| < UINT
      modifies bitmap, blocks, inodes, dinodes, this`logged, this`transactions
      ensures old(transactions) <= transactions
      ensures !r.NoBlocks? ==>
                Lead(sb, transactions[|old(transactions)|..], old(OnDisk()), OnDisk())
      ensures !r.NoBlocks? && Valid() && St() == old(St())
      ensures r.Returned? ==> r.n == |addr| || r.n == -1
    {
      hide Valid, FsOk, Lead, Recorded;
      ghost var disk0, done := OnDisk(), transactions;
      NoTransactions(sb, disk0, transactions[|done|..]);
      var pos, n := 0, |addr|;
      off := f_off;
      Sizes();
      while pos < n
        invariant pos <= n && i < inodes.Length && Valid() && St() == old(St()) && inodes[i].typ == Dev
        invariant old(transactions) <= transactions
        invariant Lead(sb, transactions[|old(transactions)|..], disk0, OnDisk())
        decreases n - pos
      {
        var n1 := if n - pos > CHUNK then CHUNK else n - pos;
        ghost var ts, disk1 := transactions, OnDisk();
        var w := WriteChunk(i, off % UINT, addr[pos..pos + n1]);
        LeadOn(sb, done, ts, transactions, disk0, disk1, OnDisk(), logged);
        if w.ret > 0 {
          off := off + w.ret;
        }
        if w.ret < 0 {
          break;
        }
        if w.ret != n1 {
          return ShortFilewrite, off;
        }
        pos := pos + n1;
      }
      r := Returned(if pos == n then n else -1);
    }

    lemma Sizes()
      requires Valid()
      ensures inodes.Length == sb.ninodes
    {
    }

    lemma StartWriting(i: nat, f_off: nat, addr: seq<Byte>)
      requires Valid() && i < sb.ninodes
      ensures i < inodes.Length && WrittenSoFar(St(), i, f_off, addr, 0)
    {
      BecomesSelf(sb, St(), i);
    }

    lemma SoFarFacts(fs0: Fs, i: nat, f_off: nat, addr: seq<Byte>, pos: nat)
      requires WrittenSoFar(fs0, i, f_off, addr, pos)
      ensures Valid() && Shape(sb, St()) && i < |fs0.inodes| && inodes.Length == sb.ninodes
              && inodes[i].typ == fs0.inodes[i].typ
      ensures FsOk(sb, St()) && inodes[i].size <= MAXFILE * BSIZE
      ensures FsOk(sb, fs0) && fs0.inodes[i].size <= MAXFILE * BSIZE
      ensures FileBecomes(sb, fs0, St(), i, Content(sb, St(), i))
      ensures pos > 0 ==> f_off <= fs0.inodes[i].size
      ensures Content(sb, St(), i) == if pos == 0 then Content(sb, fs0, i)
                                      else Overwritten(Content(sb, fs0, i), f_off, addr[..pos])
    {
    }

    lemma OneChunkMore(fs0: Fs, fs1: Fs, i: nat, f_off: nat, addr: seq<Byte>, pos: nat, n1: nat)
      requires Valid() && FsOk(sb, fs0) && FsOk(sb, fs1) && i < sb.ninodes && pos + n1 <= |addr|
      requires fs0.inodes[i].size <= MAXFILE * BSIZE && fs1.inodes[i].size <= MAXFILE * BSIZE
      requires f_off + pos <= fs1.inodes[i].size && (pos > 0 ==> f_off <= fs0.inodes[i].size)
      requires FileBecomes(sb, fs0, fs1, i, Content(sb, fs1, i))
      requires Content(sb, fs1, i) == if pos == 0 then Content(sb, fs0, i)
                                      else Overwritten(Content(sb, fs0, i), f_off, addr[..pos])
      requires FileBecomes(sb, fs1, St(), i, Overwritten(Content(sb, fs1, i), f_off + pos, addr[pos..pos + n1]))
      ensures n1 > 0 ==> WrittenSoFar(fs0, i, f_off, addr, pos + n1)
      ensures inodes[i].typ == fs1.inodes[i].typ
    {
      hide Mapped, Overwritten, Content, FileBecomes;
      BecomesContent(sb, fs1, St(), i, Overwritten(Content(sb, fs1, i), f_off + pos, addr[pos..pos + n1]));
      BecomesTwice(sb, fs0, fs1, St(), i);
      OverwrittenTwice(Content(sb, fs0, i), f_off, addr, pos, n1);
    }

    lemma GrowthOf(fs: Fs, before: set<nat>, i: nat, fresh_block: bool, r: nat)
      requires LogGrowth(fs, St(), before, logged, i, fresh_block, r)
      ensures Shape(sb, fs) && Shape(sb, St()) && i < sb.ninodes
      ensures TableBlocks(sb, fs, i) <= TableBlocks(sb, St(), i)
      ensures logged <= before + PieceBlocks(sb, fresh_block, r) + TableBlocks(sb, St(), i)
    {
    }
  }

  /** The bitmap blocks of all blocks of inode i. */
  ghost function SlotBits(g: Super, fs: Fs, i: nat): set<nat>
    requires Shape(g, fs) && i < g.ninodes
  {
    set k: nat | k < NSLOTS && Slot(g, fs, i, k) != 0 :: g.BBlock(Slot(g, fs, i, k))
  }

  lemma SlotBitsHold(g: Super, fs: Fs, i: nat, k: nat)
    requires Shape(g, fs) && i < g.ninodes && k < NSLOTS
    ensures Slot(g, fs, i, k) != 0 ==> g.BBlock(Slot(g, fs, i, k)) in SlotBits(g, fs, i)
  {
  }

  /** A data block and, if it is fresh, its bitmap block. */
  ghost function PieceBlocks(g: Super, fresh_block: bool, r: nat): (s: set<nat>)
    ensures |s| <= if fresh_block then 2 else 1
  {
    if fresh_block then {r, g.BBlock(r)} else {r}
  }

  lemma UnionBound(a: set<nat>, b: set<nat>)
    ensures |a + b| <= |a| + |b|
  {
    assert a + b == a + (b - a) && a !! (b - a);
    assert |b - a| <= |b| by {
      assert b == (b - a) + (b * a) && (b - a) !! (b * a);
    }
  }

  lemma LoggedGrows(start: set<nat>, before: set<nat>, after: set<nat>, own: set<nat>, piece: set<nat>,
                    table: set<nat>, table': set<nat>)
    requires before <= start + own + table && after <= before + piece + table' && table <= table'
    ensures after <= start + (own + piece) + table'
  {
  }

  lemma BecomesOk(g: Super, fs: Fs, fs': Fs, i: nat, c: seq<Byte>)
    requires FileBecomes(g, fs, fs', i, c)
    ensures FsOk(g, fs')
  {
  }

  lemma SubsetSize(a: set<nat>, b: set<nat>)
    requires a <= b
    ensures |a| <= |b|
  {
    assert b == a + (b - a) && a !! (b - a);
  }

  /** A chunk touches at most four blocks and then starts inside one that exists, so it logs at most MAXOPBLOCKS. */
  lemma ChunkFits(off: nat, n: nat, size: nat)
    requires 0 < n <= CHUNK && off <= size
    ensures Touched(off, n) + Fresh(off, n, size) + 3 <= LogDisk.MAXOPBLOCKS
  {
  }

  lemma CountStart(off: nat, size: nat)
    ensures Touched(off, 0) == 0 && Fresh(off, 0, size) == 0
  {
  }

  /** The indirect block, once there, stays the same. */
  lemma BmapTables(g: Super, fs: Fs, fs': Fs, i: nat, bn: nat, r: nat, fresh_block: bool)
    requires Shape(g, fs) && i < g.ninodes
    requires if fresh_block then Grown(g, fs, fs', i, bn, r) else fs' == fs
    ensures Shape(g, fs') && TableBlocks(g, fs, i) <= TableBlocks(g, fs', i)
  {
  }

  lemma MappedBlock(g: Super, fs: Fs, i: nat, p: nat)
    requires FsOk(g, fs) && i < g.ninodes && p < fs.inodes[i].size <= MAXFILE * BSIZE
    ensures Slot(g, fs, i, SlotOf(p / BSIZE)) != 0 && Slot(g, fs, i, SlotOf(p / BSIZE)) < g.size
  {
    assert Mapped(g, fs, i, NBlocks(fs.inodes[i].size));
    assert SlotAllocated(g, fs, i, SlotOf(p / BSIZE));
  }

  lemma PieceOfContent(g: Super, fs: Fs, i: nat, p: nat, m: nat)
    requires FsOk(g, fs) && i < g.ninodes && p + m <= fs.inodes[i].size <= MAXFILE * BSIZE
    requires m > 0 && p % BSIZE + m <= BSIZE && Slot(g, fs, i, SlotOf(p / BSIZE)) < g.size
    ensures Content(g, fs, i)[p..p + m] == fs.blocks[Slot(g, fs, i, SlotOf(p / BSIZE))][p % BSIZE..p % BSIZE + m]
  {
    forall q | p <= q < p + m
      ensures Content(g, fs, i)[q] == fs.blocks[Slot(g, fs, i, SlotOf(p / BSIZE))][p % BSIZE + q - p]
    {
      assert q / BSIZE == p / BSIZE && q % BSIZE == p % BSIZE + q - p;
    }
  }

  lemma OwnedShape(g: Super, fs: Fs)
    requires Owned(g, fs)
    ensures Shape(g, fs)
    ensures forall i: nat, k: nat :: i < g.ninodes && k < NSLOTS ==> Slot(g, fs, i, k) < g.size
  {
    forall i: nat, k: nat | i < g.ninodes && k < NSLOTS
      ensures Slot(g, fs, i, k) < g.size
    {
      assert SlotAllocated(g, fs, i, k);
    }
  }
}
