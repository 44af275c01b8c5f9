/** Whole runs of the FTL: after any sequence of writes and flushes on a freshly opened device a read returns, sector
    by sector, what was last written there. */
module FtlRun {
  import opened NandFlash
  import opened FtlBank
  import opened FtlState
  import opened FtlHost
  import opened Ftl

  datatype Op = Write(lba: nat, data: seq<u32>) | Flush

  /** Writes lie on the device, and those that are empty start at the boundary of a later page. */
  ghost predicate OpsInRange(g: Geometry, ops: seq<Op>)
    requires g.Valid()
  {
    forall k :: 0 <= k < |ops| && ops[k].Write? ==>
      OnDevice(g, ops[k].lba, |ops[k].data|)
      && !EmptyWrite(ops[k].lba, |ops[k].data|) && !StrayWrite(ops[k].lba, |ops[k].data|)
  }

  /** The flat sector array the host has in mind. */
  ghost function FlatAfter(g: Geometry, ops: seq<Op>): (v: seq<u32>)
    requires g.Valid() && OpsInRange(g, ops)
    ensures |v| == NSectors(g)
  {
    if ops == [] then seq(NSectors(g), _ => ERASED)
    else
      var before := FlatAfter(g, ops[..|ops| - 1]);
      match ops[|ops| - 1]
      case Write(lba, data) => Overwrite(before, lba, data)
      case Flush => before
  }

  ghost predicate Covers(op: Op, i: nat) {
    op.Write? && op.lba <= i < op.lba + |op.data|
  }

  /** ops[k] is the last write that covers sector i. */
  ghost predicate LastCover(ops: seq<Op>, i: nat, k: nat) {
    k < |ops| && Covers(ops[k], i) && forall j :: k < j < |ops| ==> !Covers(ops[j], i)
  }

  /** The flat array holds the last value written to a sector ... */
  lemma {:induction false} FlatHoldsLastWrite(g: Geometry, ops: seq<Op>, i: nat, k: nat)
    requires g.Valid() && OpsInRange(g, ops) && i < NSectors(g) && LastCover(ops, i, k)
    ensures FlatAfter(g, ops)[i] == ops[k].data[i - ops[k].lba]
  {
    var n := |ops| - 1;
    if k < n {
      assert !Covers(ops[n], i);
      FlatHoldsLastWrite(g, ops[..n], i, k);
    }
  }

  ghost predicate NeverWritten(ops: seq<Op>, i: nat) {
    forall k :: 0 <= k < |ops| ==> !Covers(ops[k], i)
  }

  /** ... and the erased pattern where nothing was written. */
  lemma {:induction false} FlatErasedElsewhere(g: Geometry, ops: seq<Op>, i: nat)
    requires g.Valid() && OpsInRange(g, ops) && i < NSectors(g) && NeverWritten(ops, i)
    ensures FlatAfter(g, ops)[i] == 0xFFFF_FFFF
  {
    if ops != [] {
      assert !Covers(ops[|ops| - 1], i);
      FlatErasedElsewhere(g, ops[..|ops| - 1], i);
    }
  }

  /** ftl_open followed by any run of ftl_write and ftl_flush shows the host the flat array. */
  method Run(g: Geometry, ops: seq<Op>) returns (d: Device)
    requires g.Valid() && OpsInRange(g, ops)
    ensures d.Valid() && d.g == g && View(g, d.st) == FlatAfter(g, ops)
    ensures fresh(d) && fresh(d.nand) && fresh(d.nand.nand) && fresh(d.nand.iswritten) && fresh(d.nand.blk_index)
    ensures fresh(d.L2P) && fresh(d.isValid) && fresh(d.next_ppn) && fresh(d.gc_trigger_ppn) && fresh(d.free_pblk)
    ensures fresh(d.buffer_L2P) && fresh(d.buffer_pblk) && fresh(d.buffer_isValid)
  {
    hide View;
    d := Device.FtlOpen(g);
    assert View(g, d.st) == seq(NSectors(g), _ => ERASED);
    assert ops[..0] == [];
    for i := 0 to |ops|
      invariant d.Valid() && View(g, d.st) == FlatAfter(g, ops[..i])
    {
      assert ops[..i + 1][..i] == ops[..i];
      match ops[i]
      case Write(lba, data) =>
        ghost var stray := d.FtlWrite(lba, data);
        assert data + stray == data;
      case Flush => d.FtlFlush();
    }
    assert ops[..|ops|] == ops;
  }

  /** Reading any run of sectors after any history returns the last values written to them. */
  method ReadAfterRun(g: Geometry, ops: seq<Op>, lba: nat, nsect: nat) returns (read: seq<u32>)
    requires g.Valid() && OpsInRange(g, ops) && OnDevice(g, lba, nsect)
    ensures |read| == nsect
    ensures forall i: nat, k: nat :: i < nsect && LastCover(ops, lba + i, k) ==>
              read[i] == ops[k].data[lba + i - ops[k].lba]
    ensures forall i: nat :: i < nsect && NeverWritten(ops, lba + i) ==> read[i] == 0xFFFF_FFFF
  {
    hide View, FlatAfter, LastCover, NeverWritten;
    var d := Run(g, ops);
    var out := new u32[nsect];
    d.FtlRead(lba, nsect, out);
    read := out[..];
    forall i: nat, k: nat | i < nsect && LastCover(ops, lba + i, k)
      ensures k < |ops| && Covers(ops[k], lba + i) && read[i] == ops[k].data[lba + i - ops[k].lba]
    {
      LastCoverCovers(ops, lba + i, k);
      FlatHoldsLastWrite(g, ops, lba + i, k);
    }
    forall i: nat | i < nsect && NeverWritten(ops, lba + i)
      ensures read[i] == 0xFFFF_FFFF
    {
      FlatErasedElsewhere(g, ops, lba + i);
    }
  }

  lemma LastCoverCovers(ops: seq<Op>, i: nat, k: nat)
    requires LastCover(ops, i, k)
    ensures k < |ops| && Covers(ops[k], i)
  {
  }
}
