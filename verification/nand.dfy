/** The NAND flash simulator of HW3/nand.c: flat arrays changed in place by program and erase,
    and the abstract chip they stand for, in which a block is the sequence of the cells programmed
    in it since its last erase. */
module NandFlash {

  type u32 = x: int | 0 <= x < 0x1_0000_0000

  const SECTORS_PER_PAGE := 8

  type Page = p: seq<u32> | |p| == SECTORS_PER_PAGE witness seq(SECTORS_PER_PAGE, _ => 0)

  datatype Cell = Cell(data: Page, spare: u32)

  type Block = seq<Cell>
  type BankFlash = seq<Block>
  type Flash = seq<BankFlash>

  const NAND_SUCCESS := 0
  const NAND_ERR_INVALID := -1
  const NAND_ERR_OVERWRITE := -2
  const NAND_ERR_POSITION := -3
  const NAND_ERR_EMPTY := -4

  function BlkIdx(nblks: nat, bank: nat, blk: nat): nat {
    bank * nblks + blk
  }

  function PageIdx(nblks: nat, npages: nat, bank: nat, blk: nat, page: nat): nat {
    bank * (nblks * npages) + blk * npages + page
  }

  lemma MulMono(a: nat, b: nat, k: nat)
    requires a <= b
    ensures a * k <= b * k
  {
  }

  lemma MulSucc(a: nat, k: nat)
    ensures (a + 1) * k == a * k + k
  {
  }

  /** Row-major indexing stays inside the array and never sends two positions to one slot. */
  lemma RowMajor(n: nat, rows: nat, row: nat, col: nat)
    requires row < rows && col < n
    ensures 0 <= row * n + col < rows * n
    ensures row * n + col == (row + 1) * n - (n - col)
  {
    MulMono(row + 1, rows, n);
  }

  lemma RowMajorInjective(n: nat, r1: nat, c1: nat, r2: nat, c2: nat)
    requires c1 < n && c2 < n
    requires r1 * n + c1 == r2 * n + c2
    ensures r1 == r2 && c1 == c2
  {
    if r1 < r2 {
      MulMono(r1 + 1, r2, n);
    } else if r2 < r1 {
      MulMono(r2 + 1, r1, n);
    }
  }

  /** The two ways the simulator computes a page index agree. */
  lemma PageIdxByBlock(nblks: nat, npages: nat, bank: nat, blk: nat, page: nat)
    ensures PageIdx(nblks, npages, bank, blk, page) == BlkIdx(nblks, bank, blk) * npages + page
  {
    assert (bank * nblks + blk) * npages == (bank * nblks) * npages + blk * npages;
    assert (bank * nblks) * npages == bank * (nblks * npages);
  }

  lemma IdxBounds(nbanks: nat, nblks: nat, npages: nat, bank: nat, blk: nat, page: nat)
    requires bank < nbanks && blk < nblks && page < npages
    ensures BlkIdx(nblks, bank, blk) < nbanks * nblks
    ensures PageIdx(nblks, npages, bank, blk, page) < nbanks * nblks * npages
  {
    RowMajor(nblks, nbanks, bank, blk);
    PageIdxByBlock(nblks, npages, bank, blk, page);
    RowMajor(npages, nbanks * nblks, BlkIdx(nblks, bank, blk), page);
  }

  lemma PageIdxInjective(nblks: nat, npages: nat, b1: nat, k1: nat, p1: nat, b2: nat, k2: nat, p2: nat)
    requires k1 < nblks && k2 < nblks && p1 < npages && p2 < npages
    requires PageIdx(nblks, npages, b1, k1, p1) == PageIdx(nblks, npages, b2, k2, p2)
    ensures b1 == b2 && k1 == k2 && p1 == p2
  {
    PageIdxByBlock(nblks, npages, b1, k1, p1);
    PageIdxByBlock(nblks, npages, b2, k2, p2);
    RowMajorInjective(npages, BlkIdx(nblks, b1, k1), p1, BlkIdx(nblks, b2, k2), p2);
    RowMajorInjective(nblks, b1, k1, b2, k2);
  }

  function EmptyFlash(nbanks: nat, nblks: nat): Flash {
    seq(nbanks, _ => seq(nblks, _ => []))
  }

  /** Abstract effect of a successful program or erase. */
  function Programmed(f: Flash, bank: nat, blk: nat, c: Cell): Flash
    requires bank < |f| && blk < |f[bank]|
  {
    f[bank := f[bank][blk := f[bank][blk] + [c]]]
  }

  function Erased(f: Flash, bank: nat, blk: nat): Flash
    requires bank < |f| && blk < |f[bank]|
  {
    f[bank := f[bank][blk := []]]
  }

  class Nand {
    const nbanks: nat
    const nblks: nat
    const npages: nat
    const nand: array<Cell>
    const iswritten: array<bool>
    const blk_index: array<nat>

    ghost var flash: Flash
    ghost var faults: nat  // calls so far that did not return NAND_SUCCESS

    ghost predicate Shape()
      reads this
    {
      && nbanks > 0 && nblks > 0 && npages > 0
      && nand.Length == nbanks * nblks * npages
      && iswritten.Length == nbanks * nblks * npages
      && blk_index.Length == nbanks * nblks
      && |flash| == nbanks
      && (forall b :: 0 <= b < nbanks ==> |flash[b]| == nblks)
      && (forall b, k :: 0 <= b < nbanks && 0 <= k < nblks ==> |flash[b][k]| <= npages)
    }

    ghost predicate InRange(b: int, k: int, p: int) {
      0 <= b < nbanks && 0 <= k < nblks && 0 <= p < npages
    }

    /** The arrays hold exactly the abstract chip. */
    ghost predicate Valid()
      reads this, nand, iswritten, blk_index
    {
      && Shape()
      && (forall b: nat, k: nat {:trigger BlkIdx(nblks, b, k)} :: b < nbanks && k < nblks ==>
            BlkIdx(nblks, b, k) < blk_index.Length && blk_index[BlkIdx(nblks, b, k)] == |flash[b][k]|)
      && (forall b: nat, k: nat, p: nat {:trigger PageIdx(nblks, npages, b, k, p)} :: InRange(b, k, p) ==>
            && PageIdx(nblks, npages, b, k, p) < nand.Length
            && iswritten[PageIdx(nblks, npages, b, k, p)] == (p < |flash[b][k]|)
            && (p < |flash[b][k]| ==> nand[PageIdx(nblks, npages, b, k, p)] == flash[b][k][p]))
    }

    constructor (nbanks: nat, nblks: nat, npages: nat)
      requires nbanks > 0 && nblks > 0 && npages > 0
      ensures this.nbanks == nbanks && this.nblks == nblks && this.npages == npages
      ensures Valid() && fresh(nand) && fresh(iswritten) && fresh(blk_index)
      ensures flash == EmptyFlash(nbanks, nblks) && faults == 0
    {
      this.nbanks, this.nblks, this.npages := nbanks, nblks, npages;
      nand := new Cell[nbanks * nblks * npages](_ => Cell(seq(SECTORS_PER_PAGE, _ => 0), 0));
      iswritten := new bool[nbanks * nblks * npages](_ => false);
      blk_index := new nat[nbanks * nblks](_ => 0);
      flash, faults := EmptyFlash(nbanks, nblks), 0;
      new;
      forall b: nat, k: nat, p: nat | InRange(b, k, p)
        ensures PageIdx(nblks, npages, b, k, p) < nand.Length && BlkIdx(nblks, b, k) < blk_index.Length
      {
        IdxBounds(nbanks, nblks, npages, b, k, p);
      }
      forall b: nat, k: nat | b < nbanks && k < nblks
        ensures BlkIdx(nblks, b, k) < blk_index.Length
      {
        IdxBounds(nbanks, nblks, npages, b, k, 0);
      }
    }

    /** nand_init, with its argument check. */
    static method NandInit(nbanks: int, nblks: int, npages: int) returns (r: int, chip: Nand?)
      ensures r == (if nbanks <= 0 || nblks <= 0 || npages <= 0 then NAND_ERR_INVALID else NAND_SUCCESS)
      ensures r == NAND_SUCCESS <==> chip != null
      ensures chip != null ==>
                && fresh(chip) && fresh(chip.nand) && fresh(chip.iswritten) && fresh(chip.blk_index)
                && chip.nbanks == nbanks && chip.nblks == nblks && chip.npages == npages
                && chip.Valid() && chip.flash == EmptyFlash(nbanks, nblks) && chip.faults == 0
    {
      if nbanks <= 0 || nblks <= 0 || npages <= 0 {
        return NAND_ERR_INVALID, null;
      }
      chip := new Nand(nbanks, nblks, npages);
      r := NAND_SUCCESS;
    }

    /** nand_write.  The result never is NAND_ERR_OVERWRITE: a written page is not the next position of its
        block, so the position check that comes first already refuses it. */
    method Write(bank: int, blk: int, page: int, data: Page, spare: u32) returns (r: int)
      requires Valid()
      modifies this`flash, this`faults, nand, iswritten, blk_index
      ensures Valid()
      ensures r == if !InRange(bank, blk, page) then NAND_ERR_INVALID
                   else if page != |old(flash)[bank][blk]| then NAND_ERR_POSITION
                   else NAND_SUCCESS
      ensures flash == if r == NAND_SUCCESS then Programmed(old(flash), bank, blk, Cell(data, spare)) else old(flash)
      ensures faults == old(faults) + if r == NAND_SUCCESS then 0 else 1
    {
      if bank >= nbanks || blk >= nblks || page >= npages || bank < 0 || blk < 0 || page < 0 {
        faults := faults + 1;
        return NAND_ERR_INVALID;
      }
      var page_idx := PageIdx(nblks, npages, bank, blk, page);
      var blk_idx := BlkIdx(nblks, bank, blk);
      IdxBounds(nbanks, nblks, npages, bank, blk, page);
      assert blk_index[blk_idx] == |flash[bank][blk]|;
      if blk_index[blk_idx] != page {
        faults := faults + 1;
        return NAND_ERR_POSITION;
      }
      if iswritten[page_idx] {
        assert false;
        return NAND_ERR_OVERWRITE;
      }
      OthersElsewhere(bank, blk, page);
      blk_index[blk_idx] := blk_index[blk_idx] + 1;
      iswritten[page_idx] := true;
      nand[page_idx] := Cell(data, spare);
      flash := Programmed(flash, bank, blk, Cell(data, spare));
      r := NAND_SUCCESS;
    }

    /** nand_read. */
    method Read(bank: int, blk: int, page: int) returns (r: int, c: Cell)
      requires Valid()
      modifies this`faults
      ensures Valid()
      ensures r == if !InRange(bank, blk, page) then NAND_ERR_INVALID
                   else if page >= |flash[bank][blk]| then NAND_ERR_EMPTY
                   else NAND_SUCCESS
      ensures r == NAND_SUCCESS ==> c == flash[bank][blk][page]
      ensures faults == old(faults) + if r == NAND_SUCCESS then 0 else 1
    {
      c := Cell(seq(SECTORS_PER_PAGE, _ => 0), 0);
      if bank >= nbanks || blk >= nblks || page >= npages || bank < 0 || blk < 0 || page < 0 {
        faults := faults + 1;
        return NAND_ERR_INVALID, c;
      }
      var page_idx := PageIdx(nblks, npages, bank, blk, page);
      IdxBounds(nbanks, nblks, npages, bank, blk, page);
      if !iswritten[page_idx] {
        faults := faults + 1;
        return NAND_ERR_EMPTY, c;
      }
      return NAND_SUCCESS, nand[page_idx];
    }

    /** nand_erase. */
    method Erase(bank: int, blk: int) returns (r: int)
      requires Valid()
      modifies this`flash, this`faults, iswritten, blk_index
      ensures Valid()
      ensures r == if !InRange(bank, blk, 0) then NAND_ERR_INVALID
                   else if |old(flash)[bank][blk]| == 0 then NAND_ERR_EMPTY
                   else NAND_SUCCESS
      ensures flash == if r == NAND_SUCCESS then Erased(old(flash), bank, blk) else old(flash)
      ensures faults == old(faults) + if r == NAND_SUCCESS then 0 else 1
    {
      if bank >= nbanks || blk >= nblks || bank < 0 || blk < 0 {
        faults := faults + 1;
        return NAND_ERR_INVALID;
      }
      var blk_idx := BlkIdx(nblks, bank, blk);
      IdxBounds(nbanks, nblks, npages, bank, blk, 0);
      assert blk_index[blk_idx] == |flash[bank][blk]|;
      if blk_index[blk_idx] == 0 {
        faults := faults + 1;
        return NAND_ERR_EMPTY;
      }
      OthersElsewhere(bank, blk, 0);
      blk_index[blk_idx] := 0;
      EraseMarks(bank, blk, blk_idx);
      flash := Erased(flash, bank, blk);
      r := NAND_SUCCESS;
    }

    /** The loop of nand_erase: the block's pages become unwritten and no other page changes. */
    method EraseMarks(bank: nat, blk: nat, blk_idx: nat)
      requires Shape() && InRange(bank, blk, 0) && blk_idx == BlkIdx(nblks, bank, blk)
      modifies iswritten
      ensures forall b: nat, k: nat, p: nat {:trigger PageIdx(nblks, npages, b, k, p)} :: InRange(b, k, p) ==>
                && PageIdx(nblks, npages, b, k, p) < iswritten.Length
                && iswritten[PageIdx(nblks, npages, b, k, p)]
                   == (if b == bank && k == blk then false else old(iswritten[PageIdx(nblks, npages, b, k, p)]))
    {
      RowMajor(nblks, nbanks, bank, blk);
      MulMono(blk_idx + 1, nbanks * nblks, npages);
      var base := blk_idx * npages;
      for i := 0 to npages
        invariant base + npages <= iswritten.Length
        invariant forall j :: 0 <= j < iswritten.Length ==>
                    iswritten[j] == (if base <= j < base + i then false else old(iswritten[j]))
      {
        iswritten[blk_idx * npages + i] := false;
      }
      forall b: nat, k: nat, p: nat | InRange(b, k, p)
        ensures PageIdx(nblks, npages, b, k, p) < iswritten.Length
        ensures base <= PageIdx(nblks, npages, b, k, p) < base + npages <==> b == bank && k == blk
      {
        IdxBounds(nbanks, nblks, npages, b, k, p);
        PageIdxByBlock(nblks, npages, b, k, p);
        var j := PageIdx(nblks, npages, b, k, p);
        if base <= j < base + npages {
          PageIdxByBlock(nblks, npages, bank, blk, j - base);
          PageIdxInjective(nblks, npages, b, k, p, bank, blk, j - base);
        }
      }
    }

    /** No other page or block shares an array slot with this one. */
    lemma OthersElsewhere(bank: nat, blk: nat, page: nat)
      requires Shape() && InRange(bank, blk, page)
      ensures forall b: nat, k: nat, p: nat {:trigger PageIdx(nblks, npages, b, k, p)} ::
                InRange(b, k, p) && PageIdx(nblks, npages, b, k, p) == PageIdx(nblks, npages, bank, blk, page)
                ==> b == bank && k == blk && p == page
      ensures forall b: nat, k: nat {:trigger BlkIdx(nblks, b, k)} ::
                b < nbanks && k < nblks && BlkIdx(nblks, b, k) == BlkIdx(nblks, bank, blk) ==> b == bank && k == blk
    {
      forall b: nat, k: nat, p: nat | InRange(b, k, p)
          && PageIdx(nblks, npages, b, k, p) == PageIdx(nblks, npages, bank, blk, page)
        ensures b == bank && k == blk && p == page
      {
        PageIdxInjective(nblks, npages, b, k, p, bank, blk, page);
      }
      forall b: nat, k: nat | b < nbanks && k < nblks && BlkIdx(nblks, b, k) == BlkIdx(nblks, bank, blk)
        ensures b == bank && k == blk
      {
        RowMajorInjective(nblks, b, k, bank, blk);
      }
    }
  }
}
