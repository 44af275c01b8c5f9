/** The page-mapping FTL of HW3/ftl.c over the NAND simulator: global tables updated in place, with a ghost value
    of the whole state that every update keeps in step. */
module Ftl {
  import opened Common
  import opened NandFlash
  import opened FtlBank
  import opened FtlGc
  import opened FtlState
  import opened FtlBuffer
  import opened FtlHost

  const INT32_MAX: nat := 0x7FFF_FFFF
  const SECTOR_SIZE := 4

  class Device {
    const g: Geometry
    const nand: Nand

    const L2P: array2<int>             // [bank][halved lpn], a page number or UNMAPPED
    const isValid: array2<bool>        // [bank][ppn]
    const next_ppn: array<nat>
    const gc_trigger_ppn: array<nat>
    const free_pblk: array<nat>

    const buffer_L2P: array2<int>      // [bank][halved lpn], a buffer page or UNUSED
    const buffer_pblk: array2<u32>     // [buffer page][sector]
    const buffer_isValid: array2<int>  // [buffer page][sector], a logical page or UNUSED

    ghost var st: State

    // ---- the tables and the value they stand for -----------------------------------------------------

    ghost predicate Separate() {
      && L2P != buffer_L2P && L2P != buffer_isValid && buffer_L2P != buffer_isValid
      && next_ppn != gc_trigger_ppn && next_ppn != free_pblk && gc_trigger_ppn != free_pblk
      && nand.blk_index !in {next_ppn, gc_trigger_ppn, free_pblk}
    }

    ghost predicate Dimensions() {
      && g.Valid() && nand.nbanks == g.banks && nand.nblks == g.blks && nand.npages == g.pages
      && L2P.Length0 == g.banks && L2P.Length1 == g.Lpns()
      && isValid.Length0 == g.banks && isValid.Length1 == g.Ppns()
      && next_ppn.Length == g.banks && gc_trigger_ppn.Length == g.banks && free_pblk.Length == g.banks
      && buffer_L2P.Length0 == g.banks && buffer_L2P.Length1 == g.Lpns()
      && buffer_pblk.Length0 == g.buffers && buffer_pblk.Length1 == SECTORS_PER_PAGE
      && buffer_isValid.Length0 == g.buffers && buffer_isValid.Length1 == SECTORS_PER_PAGE
    }

    ghost predicate BanksTied()
      reads this, nand, nand.nand, nand.iswritten, nand.blk_index, L2P, isValid, next_ppn, gc_trigger_ppn, free_pblk,
            buffer_L2P, buffer_pblk, buffer_isValid
      requires Dimensions()
    {
      && |st.banks| == g.banks && nand.Valid()
      && (forall b :: 0 <= b < g.banks ==>
            && |st.banks[b].l2p| == g.Lpns() && |st.banks[b].valid| == g.Ppns()
            && st.banks[b].flash == nand.flash[b]
            && st.banks[b].next == next_ppn[b]
            && st.banks[b].trigger == gc_trigger_ppn[b]
            && st.banks[b].free == free_pblk[b])
      && (forall b, l :: 0 <= b < g.banks && 0 <= l < g.Lpns() ==> st.banks[b].l2p[l] == L2P[b, l])
      && (forall b, p :: 0 <= b < g.banks && 0 <= p < g.Ppns() ==> st.banks[b].valid[p] == isValid[b, p])
    }

    ghost predicate BufferTied()
      reads this, nand, nand.nand, nand.iswritten, nand.blk_index, L2P, isValid, next_ppn, gc_trigger_ppn, free_pblk,
            buffer_L2P, buffer_pblk, buffer_isValid
      requires Dimensions()
    {
      && |st.bufL2p| == NLpns(g) && |st.bufData| == g.buffers && |st.bufValid| == g.buffers
      && (forall l: nat {:trigger BankOf(g, l)} {:trigger st.bufL2p[l]} :: l < NLpns(g) ==>
            && BankOf(g, l) < g.banks && HalfOf(g, l) < g.Lpns()
            && st.bufL2p[l] == buffer_L2P[BankOf(g, l), HalfOf(g, l)])
      && (forall b, s :: 0 <= b < g.buffers && 0 <= s < SECTORS_PER_PAGE ==>
            st.bufData[b][s] == buffer_pblk[b, s] && st.bufValid[b][s] == buffer_isValid[b, s])
    }

    /** The tables hold the state st, and no NAND call was ever refused. */
    ghost predicate Tied()
      reads this, nand, nand.nand, nand.iswritten, nand.blk_index, L2P, isValid, next_ppn, gc_trigger_ppn, free_pblk,
            buffer_L2P, buffer_pblk, buffer_isValid
    {
      Separate() && Dimensions() && BanksTied() && BufferTied() && nand.faults == 0
    }

    lemma TiedShape()
      requires Tied()
      ensures g.Valid() && |st.banks| == g.banks && |st.bufL2p| == NLpns(g)
      ensures |st.bufData| == g.buffers && |st.bufValid| == g.buffers
      ensures forall b :: 0 <= b < g.banks ==>
                |st.banks[b].l2p| == g.Lpns() && |st.banks[b].valid| == g.Ppns() && |st.banks[b].flash| == g.blks
    {
    }

    /** Every bank sound. */
    ghost predicate Sound()
      reads this, nand, nand.nand, nand.iswritten, nand.blk_index, L2P, isValid, next_ppn, gc_trigger_ppn, free_pblk,
            buffer_L2P, buffer_pblk, buffer_isValid
    {
      Tied() && BanksOk(g, st)
    }

    ghost predicate Valid()
      reads this, nand, nand.nand, nand.iswritten, nand.blk_index, L2P, isValid, next_ppn, gc_trigger_ppn, free_pblk,
            buffer_L2P, buffer_pblk, buffer_isValid
    {
      Sound() && BufOk(g, st)
    }

    /** The tables as ftl_open fills them: an erased chip, empty map, empty buffer, each bank's last block free. */
    constructor Tables(geometry: Geometry)
      requires geometry.Valid()
      ensures g == geometry
      ensures Separate() && Dimensions()
      ensures nand.Valid() && nand.flash == EmptyFlash(g.banks, g.blks) && nand.faults == 0
      ensures forall b, l :: 0 <= b < g.banks && 0 <= l < g.Lpns() ==> L2P[b, l] == UNMAPPED
      ensures forall b, p :: 0 <= b < g.banks && 0 <= p < g.Ppns() ==> isValid[b, p]
      ensures forall b :: 0 <= b < g.banks ==> next_ppn[b] == 0
      ensures forall b :: 0 <= b < g.banks ==> gc_trigger_ppn[b] == PpnOf(g, g.blks - 1, 0)
      ensures forall b :: 0 <= b < g.banks ==> free_pblk[b] == g.blks - 1
      ensures forall b, l :: 0 <= b < g.banks && 0 <= l < g.Lpns() ==> buffer_L2P[b, l] == UNUSED
      ensures forall b, s :: 0 <= b < g.buffers && 0 <= s < SECTORS_PER_PAGE ==> buffer_pblk[b, s] == 0
      ensures forall b, s :: 0 <= b < g.buffers && 0 <= s < SECTORS_PER_PAGE ==> buffer_isValid[b, s] == UNUSED
      ensures st == OpenedState(g)
      ensures fresh(nand) && fresh(nand.nand) && fresh(nand.iswritten) && fresh(nand.blk_index)
      ensures fresh(L2P) && fresh(isValid) && fresh(next_ppn) && fresh(gc_trigger_ppn) && fresh(free_pblk)
      ensures fresh(buffer_L2P) && fresh(buffer_pblk) && fresh(buffer_isValid)
    {
      hide OpenedState, EmptyFlash, PpnOf, geometry.Lpns, geometry.Ppns;
      g := geometry;
      nand := new Nand(geometry.banks, geometry.blks, geometry.pages);
      var l2p, marks, next, trigger, free := BankTables(geometry);
      L2P, isValid, next_ppn, gc_trigger_ppn, free_pblk := l2p, marks, next, trigger, free;
      var bufferL2p, data, owner := BufferTables(geometry);
      buffer_L2P, buffer_pblk, buffer_isValid := bufferL2p, data, owner;
      st := OpenedState(geometry);
      new;
      hide nand.Valid;
    }

    static method BankTables(g: Geometry)
      returns (l2p: array2<int>, marks: array2<bool>, next: array<nat>, trigger: array<nat>, free: array<nat>)
      requires g.Valid()
      ensures fresh(l2p) && fresh(marks) && fresh(next) && fresh(trigger) && fresh(free)
      ensures next != trigger && next != free && trigger != free
      ensures l2p.Length0 == g.banks && l2p.Length1 == g.Lpns()
      ensures marks.Length0 == g.banks && marks.Length1 == g.Ppns()
      ensures next.Length == g.banks && trigger.Length == g.banks && free.Length == g.banks
      ensures forall b, l :: 0 <= b < g.banks && 0 <= l < g.Lpns() ==> l2p[b, l] == UNMAPPED
      ensures forall b, p :: 0 <= b < g.banks && 0 <= p < g.Ppns() ==> marks[b, p]
      ensures forall b :: 0 <= b < g.banks ==>
                next[b] == 0 && trigger[b] == PpnOf(g, g.blks - 1, 0) && free[b] == g.blks - 1
    {
      hide PpnOf, g.Lpns, g.Ppns;
      var lpns, ppns, firstFree := g.Lpns(), g.Ppns(), PpnOf(g, g.blks - 1, 0);
      l2p := new int[g.banks, lpns]((_, _) => UNMAPPED);
      marks := new bool[g.banks, ppns]((_, _) => true);
      next := new nat[g.banks](_ => 0);
      trigger := new nat[g.banks](_ => firstFree);
      free := new nat[g.banks](_ => g.blks - 1);
    }

    static method BufferTables(g: Geometry) returns (l2p: array2<int>, data: array2<u32>, owner: array2<int>)
      requires g.Valid()
      ensures fresh(l2p) && fresh(data) && fresh(owner) && l2p != owner
      ensures l2p.Length0 == g.banks && l2p.Length1 == g.Lpns()
      ensures data.Length0 == g.buffers && data.Length1 == SECTORS_PER_PAGE
      ensures owner.Length0 == g.buffers && owner.Length1 == SECTORS_PER_PAGE
      ensures forall b, l :: 0 <= b < g.banks && 0 <= l < g.Lpns() ==> l2p[b, l] == UNUSED
      ensures forall b, s :: 0 <= b < g.buffers && 0 <= s < SECTORS_PER_PAGE ==>
                data[b, s] == 0 && owner[b, s] == UNUSED
    {
      hide g.Lpns;
      var lpns := g.Lpns();
      l2p := new int[g.banks, lpns]((_, _) => UNUSED);
      data := new u32[g.buffers, SECTORS_PER_PAGE]((_, _) => 0);
      owner := new int[g.buffers, SECTORS_PER_PAGE]((_, _) => UNUSED);
    }

    lemma OpenedTied()
      requires Separate() && Dimensions()
      requires nand.Valid() && nand.flash == EmptyFlash(g.banks, g.blks) && nand.faults == 0
      requires forall b, l :: 0 <= b < g.banks && 0 <= l < g.Lpns() ==> L2P[b, l] == UNMAPPED
      requires forall b, p :: 0 <= b < g.banks && 0 <= p < g.Ppns() ==> isValid[b, p]
      requires forall b :: 0 <= b < g.banks ==> next_ppn[b] == 0
      requires forall b :: 0 <= b < g.banks ==> gc_trigger_ppn[b] == PpnOf(g, g.blks - 1, 0)
      requires forall b :: 0 <= b < g.banks ==> free_pblk[b] == g.blks - 1
      requires forall b, l :: 0 <= b < g.banks && 0 <= l < g.Lpns() ==> buffer_L2P[b, l] == UNUSED
      requires forall b, s :: 0 <= b < g.buffers && 0 <= s < SECTORS_PER_PAGE ==> buffer_pblk[b, s] == 0
      requires forall b, s :: 0 <= b < g.buffers && 0 <= s < SECTORS_PER_PAGE ==> buffer_isValid[b, s] == UNUSED
      requires st == OpenedState(g)
      ensures Tied()
    {
      hide OpenedState, OpenedBank, PpnOf, EmptyFlash, nand.Valid;
      OpenedStateEntries(g);
      forall l: nat | l < NLpns(g)
        ensures BankOf(g, l) < g.banks && HalfOf(g, l) < g.Lpns()
      {
        LpnSplit(g, l);
      }
    }

    /** ftl_open. */
    static method FtlOpen(g: Geometry) returns (d: Device)
      requires g.Valid()
      ensures d.Valid() && d.g == g
      ensures fresh(d) && fresh(d.nand) && fresh(d.nand.nand) && fresh(d.nand.iswritten) && fresh(d.nand.blk_index)
      ensures fresh(d.L2P) && fresh(d.isValid) && fresh(d.next_ppn) && fresh(d.gc_trigger_ppn) && fresh(d.free_pblk)
      ensures fresh(d.buffer_L2P) && fresh(d.buffer_pblk) && fresh(d.buffer_isValid)
      ensures forall i :: 0 <= i < NSectors(g) ==> View(g, d.st)[i] == 0xFFFF_FFFF
    {
      d := new Device.Tables(g);
      hide OpenedState;
      d.OpenedTied();
      OpenedStateOk(g);
    }

    // ---- single table updates -----------------------------------------------------------------------------

    method MapPage(bank: nat, half: nat, ppn: int)
      requires Tied() && bank < g.banks && half < g.Lpns()
      modifies L2P, this`st
      ensures Tied()
      ensures st == old(st.(banks := st.banks[bank := st.banks[bank].(l2p := st.banks[bank].l2p[half := ppn])]))
    {
      L2P[bank, half] := ppn;
      st := st.(banks := st.banks[bank := st.banks[bank].(l2p := st.banks[bank].l2p[half := ppn])]);
    }

    method MarkPage(bank: nat, ppn: nat, valid: bool)
      requires Tied() && bank < g.banks && ppn < g.Ppns()
      modifies isValid, this`st
      ensures Tied()
      ensures st == old(st.(banks := st.banks[bank := st.banks[bank].(valid := st.banks[bank].valid[ppn := valid])]))
    {
      isValid[bank, ppn] := valid;
      st := st.(banks := st.banks[bank := st.banks[bank].(valid := st.banks[bank].valid[ppn := valid])]);
    }

    method MoveFrontier(bank: nat, next: nat, trigger: nat, free: nat)
      requires Tied() && bank < g.banks
      modifies next_ppn, gc_trigger_ppn, free_pblk, this`st
      ensures Tied()
      ensures st == old(st.(banks := st.banks[bank := st.banks[bank].(next := next, trigger := trigger, free := free)]))
    {
      next_ppn[bank] := next;
      gc_trigger_ppn[bank] := trigger;
      free_pblk[bank] := free;
      st := st.(banks := st.banks[bank := st.banks[bank].(next := next, trigger := trigger, free := free)]);
    }

    method Program(bank: nat, blk: nat, page: nat, data: Page, spare: u32)
      requires Tied() && bank < g.banks && blk < g.blks
      requires page == |st.banks[bank].flash[blk]| < g.pages
      modifies nand, nand.nand, nand.iswritten, nand.blk_index, this`st
      ensures Tied()
      ensures st == old(st.(banks := st.banks[bank := st.banks[bank].(flash :=
                                        st.banks[bank].flash[blk := st.banks[bank].flash[blk] + [Cell(data, spare)]])]))
    {
      var result := nand.Write(bank, blk, page, data, spare);
      st := st.(banks := st.banks[bank := st.banks[bank].(flash :=
                                    st.banks[bank].flash[blk := st.banks[bank].flash[blk] + [Cell(data, spare)]])]);
    }

    /** Copies a cell to the next page of the spare block and remaps its owner to it. */
    method Immigrate(bank: nat, c: Cell, immigrants_cnt: nat)
      requires Tied() && bank < g.banks && st.banks[bank].free < g.blks && c.spare < g.Lpns()
      requires immigrants_cnt == |st.banks[bank].flash[st.banks[bank].free]| < g.pages
      modifies nand, nand.nand, nand.iswritten, nand.blk_index, L2P, this`st
      ensures Tied()
      ensures st == old(st.(banks := st.banks[bank := Copied(g, st.banks[bank], c, immigrants_cnt)]))
    {
      var free := free_pblk[bank];
      Program(bank, free, immigrants_cnt, c.data, c.spare);
      MapPage(bank, c.spare, PpnOf(g, free, immigrants_cnt));
    }

    method EraseBlock(bank: nat, blk: nat)
      requires Tied() && bank < g.banks && blk < g.blks && |st.banks[bank].flash[blk]| > 0
      modifies nand, nand.iswritten, nand.blk_index, this`st
      ensures Tied()
      ensures st == old(st.(banks := st.banks[bank := st.banks[bank].(flash := st.banks[bank].flash[blk := []])]))
    {
      var result := nand.Erase(bank, blk);
      st := st.(banks := st.banks[bank := st.banks[bank].(flash := st.banks[bank].flash[blk := []])]);
    }

    /** nand_read of a page that is known to be programmed. */
    method ReadPage(bank: nat, blk: nat, page: nat) returns (c: Cell)
      requires Tied() && bank < g.banks && blk < g.blks && page < |st.banks[bank].flash[blk]|
      modifies nand`faults
      ensures Tied()
      ensures c == st.banks[bank].flash[blk][page]
    {
      var result;
      result, c := nand.Read(bank, blk, page);
    }

    method LinkBuffer(lpn: nat, b: int)
      requires Tied() && lpn < NLpns(g)
      modifies buffer_L2P, this`st
      ensures Tied()
      ensures st == old(st.(bufL2p := st.bufL2p[lpn := b]))
    {
      LpnSplit(g, lpn);
      buffer_L2P[BankOf(g, lpn), HalfOf(g, lpn)] := b;
      st := st.(bufL2p := st.bufL2p[lpn := b]);
      forall l: nat | BankOf(g, l) == BankOf(g, lpn) && HalfOf(g, l) == HalfOf(g, lpn)
        ensures l == lpn
      {
        LpnSplit(g, l);
      }
    }

    method PutSector(b: nat, sect: nat, lpn: int, v: u32)
      requires Tied() && b < g.buffers && sect < SECTORS_PER_PAGE
      modifies buffer_pblk, buffer_isValid, this`st
      ensures Tied()
      ensures st == old(st.(bufValid := st.bufValid[b := st.bufValid[b][sect := lpn]],
                            bufData := st.bufData[b := st.bufData[b][sect := v]]))
    {
      buffer_isValid[b, sect] := lpn;
      buffer_pblk[b, sect] := v;
      st := st.(bufValid := st.bufValid[b := st.bufValid[b][sect := lpn]],
                bufData := st.bufData[b := st.bufData[b][sect := v]]);
    }

    method ClearSector(b: nat, sect: nat)
      requires Tied() && b < g.buffers && sect < SECTORS_PER_PAGE
      modifies buffer_isValid, this`st
      ensures Tied()
      ensures st == old(st.(bufValid := st.bufValid[b := st.bufValid[b][sect := UNUSED]]))
    {
      buffer_isValid[b, sect] := UNUSED;
      st := st.(bufValid := st.bufValid[b := st.bufValid[b][sect := UNUSED]]);
    }

    method BufferOf(lpn: nat) returns (b: int)
      requires Tied() && lpn < NLpns(g)
      ensures lpn < |st.bufL2p| && b == st.bufL2p[lpn]
    {
      LpnSplit(g, lpn);
      b := buffer_L2P[BankOf(g, lpn), HalfOf(g, lpn)];
    }

    method BufferSlot(b: nat, sect: nat) returns (lpn: int, v: u32)
      requires Tied() && b < g.buffers && sect < SECTORS_PER_PAGE
      ensures b < |st.bufValid| && lpn == st.bufValid[b][sect]
      ensures b < |st.bufData| && v == st.bufData[b][sect]
    {
      lpn, v := buffer_isValid[b, sect], buffer_pblk[b, sect];
    }

    method IsValid(bank: nat, ppn: nat) returns (valid: bool)
      requires Tied() && bank < g.banks && ppn < g.Ppns()
      ensures bank < |st.banks| && ppn < |st.banks[bank].valid| && valid == st.banks[bank].valid[ppn]
    {
      valid := isValid[bank, ppn];
    }

    method MappedTo(bank: nat, half: nat) returns (ppn: int)
      requires Tied() && bank < g.banks && half < g.Lpns()
      ensures bank < |st.banks| && half < |st.banks[bank].l2p| && ppn == st.banks[bank].l2p[half]
    {
      ppn := L2P[bank, half];
    }

    method Frontier(bank: nat) returns (next: nat, trigger: nat, free: nat)
      requires Tied() && bank < g.banks
      ensures bank < |st.banks|
      ensures next == st.banks[bank].next && trigger == st.banks[bank].trigger && free == st.banks[bank].free
    {
      next, trigger, free := next_ppn[bank], gc_trigger_ppn[bank], free_pblk[bank];
    }

    method FreePblk(bank: nat) returns (free: nat)
      requires Tied() && bank < g.banks
      ensures bank < |st.banks| && free == st.banks[bank].free
    {
      free := free_pblk[bank];
    }

    // ---- garbage collection ----------------------------------------------------------------------------------

    method CountInvalid(bank: nat, pblk: nat) returns (pblk_invalid_cnt: nat)
      requires Tied() && bank < g.banks && pblk < g.blks
      ensures pblk_invalid_cnt == InvalidCount(g, st.banks[bank].valid, pblk, g.pages)
    {
      pblk_invalid_cnt := 0;
      for i := 0 to g.pages
        invariant pblk_invalid_cnt == InvalidCount(g, st.banks[bank].valid, pblk, i)
      {
        var cur_ppn := PpnOf(g, pblk, i);
        Join(g, pblk, i);
        if !isValid[bank, cur_ppn] {
          pblk_invalid_cnt := pblk_invalid_cnt + 1;
        }
      }
    }

    /** get_victim_pblk_greedy. */
    method GetVictimPblkGreedy(bank: nat) returns (ret_pblk: nat)
      requires Tied() && bank < g.banks && g.blks > 0
      ensures GreedyVictim(g, st.banks[bank].valid, ret_pblk)
    {
      ghost var valid := st.banks[bank].valid;
      var max_invalid_cnt := 0;
      ret_pblk := 0;
      var pblk := g.blks;
      while pblk > 0
        invariant pblk <= g.blks && ret_pblk < g.blks
        invariant pblk == g.blks ==> max_invalid_cnt == 0
        invariant pblk < g.blks ==>
                    pblk <= ret_pblk && max_invalid_cnt == InvalidCount(g, valid, ret_pblk, g.pages)
        invariant forall b: nat {:trigger InvalidCount(g, valid, b, g.pages)} :: pblk <= b < g.blks ==>
                    && InvalidCount(g, valid, b, g.pages) <= max_invalid_cnt
                    && (b < ret_pblk ==> InvalidCount(g, valid, b, g.pages) < max_invalid_cnt)
      {
        pblk := pblk - 1;
        var pblk_invalid_cnt := CountInvalid(bank, pblk);
        if pblk_invalid_cnt >= max_invalid_cnt {
          max_invalid_cnt := pblk_invalid_cnt;
          ret_pblk := pblk;
        }
      }
    }

    /** The bank cur in place of the given one, and nothing else changed. */
    ghost predicate OnlyBank(st0: State, bank: nat, cur: Bank)
      reads this
      requires bank < |st0.banks|
    {
      st == st0.(banks := st0.banks[bank := cur])
    }

    /** The copy loop of garbage_collection. */
    method CopyLivePages(bank: nat, victim: nat) returns (immigrants_cnt: nat)
      requires Tied() && bank < g.banks && victim < g.blks
      requires Copying(g, st.banks[bank], st.banks[bank], victim, 0, 0)
      modifies this`st, nand, nand.nand, nand.iswritten, nand.blk_index,
               L2P, isValid, next_ppn, gc_trigger_ppn, free_pblk
      ensures Tied()
      ensures OnlyBank(old(st), bank, st.banks[bank])
      ensures Copying(g, old(st.banks[bank]), st.banks[bank], victim, g.pages, immigrants_cnt)
    {
      hide Copying, Tied, BankOk;
      TiedShape();
      ghost var st0 := st;
      ghost var k0 := st.banks[bank];
      immigrants_cnt := 0;
      for i := 0 to g.pages
        invariant Tied() && |st.banks| == g.banks
        invariant OnlyBank(st0, bank, st.banks[bank])
        invariant Copying(g, k0, st.banks[bank], victim, i, immigrants_cnt)
      {
        TiedShape();
        ghost var k := st.banks[bank];
        Join(g, victim, i);
        CopyingHasShape(g, k0, k, victim, i, immigrants_cnt);
        var live := IsValid(bank, PpnOf(g, victim, i));
        if live {
          CopyMove(g, k0, k, victim, i, immigrants_cnt);
          var c := ReadPage(bank, victim, i);
          Immigrate(bank, c, immigrants_cnt);
          immigrants_cnt := immigrants_cnt + 1;
        } else {
          CopySkip(g, k0, k, victim, i, immigrants_cnt);
        }
      }
    }

    /** The loop of garbage_collection that marks the victim's pages valid again. */
    method Revalidate(bank: nat, victim: nat)
      requires Tied() && bank < g.banks && victim < g.blks
      modifies isValid, this`st
      ensures Tied()
      ensures OnlyBank(old(st), bank,
                       old(st.banks[bank]).(valid := Revalidated(g, old(st.banks[bank].valid), victim)))
    {
      ghost var st0 := st;
      ghost var v0 := st.banks[bank].valid;
      for i := 0 to g.pages
        invariant Tied()
        invariant OnlyBank(st0, bank, st0.banks[bank].(valid := st.banks[bank].valid))
        invariant forall p: nat :: p < g.Ppns() ==>
                    st.banks[bank].valid[p] == (v0[p] || (BlkOf(g, p) == victim && OffOf(g, p) < i))
      {
        Join(g, victim, i);
        MarkPage(bank, PpnOf(g, victim, i), true);
        forall p: nat | p < g.Ppns() && BlkOf(g, p) == victim && OffOf(g, p) == i
          ensures p == PpnOf(g, victim, i)
        {
          Split(g, p);
        }
      }
      forall p: nat | p < g.Ppns() ensures OffOf(g, p) < g.pages { Split(g, p); }
      assert st.banks[bank].valid == Revalidated(g, v0, victim);
    }

    /** garbage_collection under the greedy policy. */
    method GarbageCollection(bank: nat)
      requires Sound() && bank < g.banks && g.Lpns() > 0
      requires st.banks[bank].next == st.banks[bank].trigger
      modifies this`st, nand, nand.nand, nand.iswritten, nand.blk_index,
               L2P, isValid, next_ppn, gc_trigger_ppn, free_pblk
      ensures Sound()
      ensures OnlyBank(old(st), bank, st.banks[bank])
      ensures SameStored(g, old(st.banks[bank]), st.banks[bank])
      ensures st.banks[bank].next < st.banks[bank].trigger
    {
      hide Copying, GreedyVictim, Tied, BankOk, SameStored;
      TiedShape();
      ghost var k0 := st.banks[bank];
      assert BankOk(g, k0);
      var victim_pblk := GetVictimPblkGreedy(bank);
      VictimHasInvalidPage(g, k0, victim_pblk);
      CopyStart(g, k0, victim_pblk);
      VictimIsFull(g, k0, victim_pblk);
      var free := FreePblk(bank);
      var immigrants_cnt := CopyLivePages(bank, victim_pblk);
      ghost var k := st.banks[bank];
      CopyingHasShape(g, k0, k, victim_pblk, g.pages, immigrants_cnt);
      Revalidate(bank, victim_pblk);
      MoveFrontier(bank, PpnOf(g, free, immigrants_cnt), PpnOf(g, free, g.pages), victim_pblk);
      EraseBlock(bank, victim_pblk);
      assert st.banks[bank] == Collected(g, k, victim_pblk, immigrants_cnt);
      CollectOk(g, k0, k, victim_pblk, immigrants_cnt);
    }

    // ---- writing one page to flash ----------------------------------------------------------------------------

    /** The part of write_through_lpn after the collection check. */
    method AppendPage(bank: nat, half: nat, data: Page)
      requires Sound() && bank < g.banks && half < g.Lpns()
      requires st.banks[bank].next < st.banks[bank].trigger
      modifies this`st, nand, nand.nand, nand.iswritten, nand.blk_index,
               L2P, isValid, next_ppn, gc_trigger_ppn, free_pblk
      ensures Sound()
      ensures OnlyBank(old(st), bank, st.banks[bank])
      ensures StoresOnly(g, old(st.banks[bank]), st.banks[bank], half, data)
    {
      hide Tied, BankOk, StoresOnly;
      TiedShape();
      ghost var k := st.banks[bank];
      assert BankOk(g, k);
      FrontierIsNextPosition(g, k);
      AppendOk(g, k, half, data);
      var ppn, trigger, free := Frontier(bank);
      var old_ppn := MappedTo(bank, half);
      if old_ppn != UNMAPPED {
        MarkPage(bank, old_ppn, false);
      }
      MapPage(bank, half, ppn);
      Program(bank, BlkOf(g, ppn), OffOf(g, ppn), data, half);
      MoveFrontier(bank, ppn + 1, trigger, free);
      assert st.banks[bank] == Appended(g, k, half, data);
      StoresOnlyFromAppend(g, k, st.banks[bank], half, data);
    }

    /** write_through_lpn: collect first if the frontier is used up, then write at the frontier. */
    method WriteThroughLpn(bank: nat, half: nat, data: Page)
      requires Sound() && bank < g.banks && half < g.Lpns()
      modifies this`st, nand, nand.nand, nand.iswritten, nand.blk_index,
               L2P, isValid, next_ppn, gc_trigger_ppn, free_pblk
      ensures Sound()
      ensures LpnOf(g, bank, half) < NLpns(g) && NandWritten(g, old(st), st, LpnOf(g, bank, half), data)
    {
      hide Tied, BankOk, SameStored, StoresOnly, NandWritten;
      TiedShape();
      ghost var st0 := st;
      ghost var k := st.banks[bank];
      var ppn, trigger, free := Frontier(bank);
      if ppn == trigger {
        GarbageCollection(bank);
        TiedShape();
      } else {
        FrontierInBounds(g, k);
        SameStoredRefl(g, k);
      }
      ghost var k1 := st.banks[bank];
      AppendPage(bank, half, data);
      TiedShape();
      StoresOnlyAfterSame(g, k, k1, st.banks[bank], half, data);
      assert st.banks == st0.banks[bank := st.banks[bank]];
      PageWritten(g, st0, bank, half, st.banks[bank], data);
    }

    // ---- reading ------------------------------------------------------------------------------------------------

    /** What the flash holds for a logical page: nothing if unmapped, else one nand_read. */
    method ReadNandPage(lpn: nat) returns (p: Option<Page>)
      requires Sound() && lpn < NLpns(g)
      modifies nand`faults
      ensures Sound()
      ensures p == NandPage(g, st, lpn)
    {
      hide Tied;
      TiedShape();
      LpnSplit(g, lpn);
      var bank, half := BankOf(g, lpn), HalfOf(g, lpn);
      var ppn := MappedTo(bank, half);
      if ppn == UNMAPPED {
        return None;
      }
      assert Mapped(g, st.banks[bank], half);
      var c := ReadPage(bank, BlkOf(g, ppn), OffOf(g, ppn));
      return Some(c.data);
    }

    /** Puts sectors from..to of a flash page, or the erased pattern, into the host buffer. */
    method CopyOut(p: Option<Page>, from: nat, to: nat, out: array<u32>, pos: nat)
      requires from <= to <= SECTORS_PER_PAGE && pos + to - from <= out.Length
      modifies out
      ensures forall i :: 0 <= i < out.Length ==>
                out[i] == if pos <= i < pos + to - from then OnNand(p, from + i - pos) else old(out[i])
    {
      for i := 0 to to - from
        invariant forall j :: 0 <= j < out.Length ==>
                    out[j] == if pos <= j < pos + i then OnNand(p, from + j - pos) else old(out[j])
      {
        out[pos + i] := if p == None then ERASED else p.value[from + i];
      }
    }

    /** Lets the sectors buffered in page b shadow what was read from flash. */
    method OverlayOut(b: nat, from: nat, to: nat, out: array<u32>, pos: nat)
      requires Tied() && b < g.buffers
      requires from <= to <= SECTORS_PER_PAGE && pos + to - from <= out.Length
      modifies out
      ensures Tied() && st == old(st) && b < |st.bufValid| && b < |st.bufData|
      ensures forall i :: 0 <= i < out.Length ==>
                out[i] == if pos <= i < pos + to - from && st.bufValid[b][from + i - pos] != UNUSED
                          then st.bufData[b][from + i - pos] else old(out[i])
    {
      hide Tied;
      TiedShape();
      for i := 0 to to - from
        invariant Tied() && st == old(st)
        invariant forall j :: 0 <= j < out.Length ==>
                    out[j] == if pos <= j < pos + i && st.bufValid[b][from + j - pos] != UNUSED
                              then st.bufData[b][from + j - pos] else old(out[j])
      {
        var lpn, v := BufferSlot(b, from + i);
        if lpn != UNUSED {
          out[pos + i] := v;
        }
      }
    }

    /** One page's share of ftl_read. */
    method ReadSectors(lpn: nat, from: nat, to: nat, out: array<u32>, pos: nat)
      requires Valid() && lpn < NLpns(g)
      requires from <= to <= SECTORS_PER_PAGE && pos + to - from <= out.Length
      modifies nand`faults, out
      ensures Valid() && st == old(st)
      ensures forall i :: 0 <= i < out.Length ==>
                out[i] == if pos <= i < pos + to - from then Sector(g, st, lpn, from + i - pos) else old(out[i])
    {
      hide Tied, BankOk, NandPage;
      TiedShape();
      var p := ReadNandPage(lpn);
      CopyOut(p, from, to, out, pos);
      var b := BufferOf(lpn);
      if b != UNUSED {
        OverlayOut(b, from, to, out, pos);
      }
    }

    /** The first k sectors of the host buffer hold what the run reads, and nothing behind the run was touched. */
    ghost predicate Delivered(lba: nat, n: nat, was: seq<u32>, out: seq<u32>, k: nat)
      reads this, nand, nand.nand, nand.iswritten, nand.blk_index, L2P, isValid, next_ppn, gc_trigger_ppn, free_pblk,
            buffer_L2P, buffer_pblk, buffer_isValid
      requires Valid() && lba + n <= NSectors(g)
    {
      && k <= n <= |out| == |was|
      && (forall i :: 0 <= i < k ==> out[i] == View(g, st)[lba + i])
      && (forall i :: n <= i < |out| ==> out[i] == was[i])
    }

    lemma DeliveredMore(lba: nat, n: nat, was: seq<u32>, out: seq<u32>, out': seq<u32>, lpn: nat)
      requires Valid() && InRange(g, lba, n) && FirstLpn(lba) <= lpn <= LastLpn(lba, n)
      requires From(lba, lpn) <= To(lba, n, lpn) <= SECTORS_PER_PAGE && lpn < NLpns(g) && 0 <= Pos(lba, lpn)
      requires Pos(lba, lpn) + To(lba, n, lpn) - From(lba, lpn) <= n
      requires Delivered(lba, n, was, out, Pos(lba, lpn)) && |out'| == |out|
      requires forall i :: 0 <= i < |out| ==>
                 out'[i] == if Pos(lba, lpn) <= i < Pos(lba, lpn) + To(lba, n, lpn) - From(lba, lpn)
                            then Sector(g, st, lpn, From(lba, lpn) + i - Pos(lba, lpn)) else out[i]
      ensures Delivered(lba, n, was, out', Pos(lba, lpn) + To(lba, n, lpn) - From(lba, lpn))
    {
      hide Tied, BankOk, BufOk, Sector;
    }

    /** ftl_read: whatever was last written, sector by sector. */
    method FtlRead(lba: nat, nsect: nat, read_buffer: array<u32>)
      requires Valid() && OnDevice(g, lba, nsect) && read_buffer.Length >= nsect
      modifies nand`faults, read_buffer
      ensures Valid() && st == old(st)
      ensures forall i :: 0 <= i < nsect ==> read_buffer[i] == View(g, st)[lba + i]
      ensures forall i :: nsect <= i < read_buffer.Length ==> read_buffer[i] == old(read_buffer[i])
    {
      hide Tied, BankOk, BufOk, Sector;
      TiedShape();
      if nsect == 0 {
        ReadNothing(lba, read_buffer);
        return;
      }
      var first, last := FirstLpn(lba), LastLpn(lba, nsect);
      ghost var was := read_buffer[..];
      PieceBounds(g, lba, nsect, first);
      assert Delivered(lba, nsect, was, was, 0);
      for lpn := first to last + 1
        invariant Valid() && st == old(st)
        invariant Delivered(lba, nsect, was, read_buffer[..], if lpn <= last then Pos(lba, lpn) else nsect)
      {
        PieceBounds(g, lba, nsect, lpn);
        ghost var out := read_buffer[..];
        ReadSectors(lpn, From(lba, lpn), To(lba, nsect, lpn), read_buffer, Pos(lba, lpn));
        DeliveredMore(lba, nsect, was, out, read_buffer[..], lpn);
      }
    }

    /** An empty read looks at one page at most and delivers nothing. */
    method ReadNothing(lba: nat, read_buffer: array<u32>)
      requires Valid() && OnDevice(g, lba, 0)
      modifies nand`faults, read_buffer
      ensures Valid() && st == old(st) && read_buffer[..] == old(read_buffer[..])
    {
      hide Tied, BankOk, BufOk, Sector;
      TiedShape();
      for pp := 0 to SendKazu(lba, 0)
        invariant Valid() && st == old(st) && read_buffer[..] == old(read_buffer[..])
      {
        EmptyWriteBounds(g, lba, 0);
        ReadSectors(FirstLpn(lba) + pp, From(lba, FirstLpn(lba)), From(lba, FirstLpn(lba)), read_buffer, 0);
      }
    }

    // ---- writing straight to flash ------------------------------------------------------------------------------

    /** write_directly_nand_buffer_check: merge the page's buffered sectors into data and free its buffer page. */
    method WriteDirectlyNandBufferCheck(lpn: nat, data: Page) returns (data': Page)
      requires Valid() && lpn < NLpns(g) && st.bufL2p[lpn] != UNUSED
      modifies this`st, buffer_L2P, buffer_isValid
      ensures Tied()
      ensures lpn < |old(st).bufL2p| && UNUSED <= old(st).bufL2p[lpn] < |old(st).bufValid|
              && st == Dropped(old(st), lpn)
      ensures forall s :: 0 <= s < SECTORS_PER_PAGE ==>
                data'[s] == if BufferedSector(g, old(st), lpn, s) then old(st).bufData[old(st).bufL2p[lpn]][s]
                            else data[s]
    {
      hide Tied, BankOk, RowOf, FreeRow;
      TiedShape();
      ghost var st0 := st;
      var b := BufferOf(lpn);
      ghost var row := st.bufValid[b];
      assert row == RowFilled(row, 0, 0, UNUSED);
      data' := data;
      for i := 0 to SECTORS_PER_PAGE
        invariant Tied()
        invariant st == st0.(bufValid := st0.bufValid[b := RowFilled(row, 0, i, UNUSED)])
        invariant forall s :: 0 <= s < SECTORS_PER_PAGE ==>
                    data'[s] == if s < i && row[s] != UNUSED then st0.bufData[b][s] else data[s]
      {
        var l, v := BufferSlot(b, i);
        if l != UNUSED {
          data' := data'[i := v];
          ClearSector(b, i);
        }
        assert st.bufValid[b] == RowFilled(row, 0, i + 1, UNUSED);
      }
      LinkBuffer(lpn, UNUSED);
    }

    /** Packing one page of write_directly_nand: old contents around sectors from..to, the host's data in them.
        A page in the middle of the run is overwritten whole, so its flash copy is not read. */
    method PackPage(lpn: nat, from: nat, to: nat, middle: bool, src: seq<u32>, pos: nat, junk: Page)
      returns (data: Page)
      requires Valid() && lpn < NLpns(g)
      requires from <= to <= SECTORS_PER_PAGE && pos + to - from <= |src|
      requires middle ==> from == 0 && to == SECTORS_PER_PAGE
      modifies this`st, nand`faults, buffer_L2P, buffer_isValid
      ensures Tied()
      ensures lpn < |old(st).bufL2p| && UNUSED <= old(st).bufL2p[lpn] < |old(st).bufValid|
              && st == Dropped(old(st), lpn)
      ensures forall s :: 0 <= s < SECTORS_PER_PAGE ==>
                data[s] == if from <= s < to then src[pos + s - from] else Sector(g, old(st), lpn, s)
    {
      hide Tied, BankOk, RowOf, FreeRow, NandPage, Dropped;
      TiedShape();
      data := junk;
      ghost var st0 := st;
      if !middle {
        var p := ReadNandPage(lpn);
        if p == None {
          data := Margins(data, from, to);
        } else {
          data := p.value;
        }
      }
      ghost var before := data;
      DroppedUnbuffered(st, lpn);
      var b := BufferOf(lpn);
      if b != UNUSED {
        data := WriteDirectlyNandBufferCheck(lpn, data);
      }
      ghost var merged := data;
      for i := 0 to to - from
        invariant forall s :: 0 <= s < SECTORS_PER_PAGE ==>
                    data[s] == if from <= s < from + i then src[pos + s - from] else merged[s]
      {
        data := data[from + i := src[pos + i]];
      }
    }

    /** The 0xffffffff padding around the written sectors of a page that was never written before. */
    static method Margins(data: Page, from: nat, to: nat) returns (data': Page)
      requires from <= to <= SECTORS_PER_PAGE
      ensures forall s :: 0 <= s < SECTORS_PER_PAGE ==> data'[s] == if from <= s < to then data[s] else ERASED
    {
      data' := data;
      for i := 0 to from
        invariant forall s :: 0 <= s < SECTORS_PER_PAGE ==> data'[s] == if s < i then ERASED else data[s]
      {
        data' := data'[i := ERASED];
      }
      for i := to to SECTORS_PER_PAGE
        invariant forall s :: 0 <= s < SECTORS_PER_PAGE ==>
                    data'[s] == if s < from || to <= s < i then ERASED else data[s]
      {
        data' := data'[i := ERASED];
      }
    }

    /** One page of write_directly_nand. */
    method WritePageDirectly(lpn: nat, from: nat, to: nat, middle: bool, src: seq<u32>, pos: nat, junk: Page)
      returns (data: Page)
      requires Valid() && lpn < NLpns(g)
      requires from <= to <= SECTORS_PER_PAGE && pos + to - from <= |src|
      requires middle ==> from == 0 && to == SECTORS_PER_PAGE
      modifies this`st, nand, nand.nand, nand.iswritten, nand.blk_index,
               L2P, isValid, next_ppn, gc_trigger_ppn, free_pblk,
               buffer_L2P, buffer_pblk, buffer_isValid
      ensures Valid()
      ensures Readable(g, old(st)) && PageUpdated(g, old(st), st, lpn, from, to, src, pos)
    {
      hide Tied, BankOk, RowOf, FreeRow, Sector, Dropped, NandWritten, PageUpdated;
      ghost var st0 := st;
      data := PackPage(lpn, from, to, middle, src, pos, junk);
      DroppedBanks(g, st0, lpn);
      LpnSplit(g, lpn);
      WriteThroughLpn(BankOf(g, lpn), HalfOf(g, lpn), data);
      DirectUpdates(g, st0, st, lpn, from, to, src, pos, data);
    }

    /** write_directly_nand. */
    method WriteDirectlyNand(lba: nat, write_buffer: seq<u32>)
      requires Valid() && InRange(g, lba, |write_buffer|)
      modifies this`st, nand, nand.nand, nand.iswritten, nand.blk_index,
               L2P, isValid, next_ppn, gc_trigger_ppn, free_pblk,
               buffer_L2P, buffer_pblk, buffer_isValid
      ensures Valid()
      ensures View(g, st) == Overwrite(old(View(g, st)), lba, write_buffer)
    {
      hide Tied, BankOk, BufOk, Sector, PageUpdated, WrittenBelow;
      ghost var st0 := st;
      var n := |write_buffer|;
      var first, last := FirstLpn(lba), LastLpn(lba, n);
      var data: Page := seq(SECTORS_PER_PAGE, _ => 0);
      ReadableOk(g, st);
      WrittenNothing(g, st, lba, write_buffer);
      for lpn := first to last + 1
        invariant Valid() && Readable(g, st0) && Readable(g, st)
        invariant WrittenBelow(g, st0, st, lba, write_buffer, lpn)
      {
        ghost var st1 := st;
        PieceBounds(g, lba, n, lpn);
        data := WritePageDirectly(lpn, From(lba, lpn), To(lba, n, lpn), first < lpn < last,
                                  write_buffer, Pos(lba, lpn), data);
        ReadableOk(g, st);
        WrittenOneMore(g, st0, st1, st, lba, write_buffer, lpn);
      }
      WrittenAll(g, st0, st, lba, write_buffer);
    }

    // ---- the write buffer ----------------------------------------------------------------------------------------

    /** needed_buffer_page_calculate. */
    method NeededBufferPageCalculate(lpn_start: nat, send_kazu: nat) returns (ret: nat)
      requires Tied() && lpn_start + send_kazu <= NLpns(g)
      ensures lpn_start + send_kazu <= |st.bufL2p| && ret == NeededCount(st.bufL2p, lpn_start, lpn_start + send_kazu)
    {
      hide Tied;
      TiedShape();
      ret := 0;
      for lpn := lpn_start to lpn_start + send_kazu
        invariant ret == NeededCount(st.bufL2p, lpn_start, lpn)
      {
        var b := BufferOf(lpn);
        if b == UNUSED {
          ret := ret + 1;
        }
      }
    }

    /** The scan both calculators share: is no sector of buffer page i in use? */
    method IsFreeRow(i: nat) returns (free: bool)
      requires Tied() && i < g.buffers
      ensures i < |st.bufValid| && free == FreeRow(st.bufValid[i])
    {
      hide Tied;
      TiedShape();
      var s := 0;
      while s < SECTORS_PER_PAGE
        invariant s <= SECTORS_PER_PAGE && forall t :: 0 <= t < s ==> st.bufValid[i][t] == UNUSED
      {
        var lpn, _ := BufferSlot(i, s);
        if lpn != UNUSED {
          break;
        }
        s := s + 1;
      }
      free := s == SECTORS_PER_PAGE;
    }

    /** usable_buffer_page_calculate. */
    method UsableBufferPageCalculate() returns (ret: nat)
      requires Tied()
      ensures |st.bufValid| == g.buffers && ret == FreeCount(st.bufValid, g.buffers)
    {
      hide Tied, FreeRow;
      TiedShape();
      ret := 0;
      for i := 0 to g.buffers
        invariant ret == FreeCount(st.bufValid, i)
      {
        var free := IsFreeRow(i);
        if free {
          ret := ret + 1;
        }
      }
    }

    /** frontend_buffer_page_calculate: the lowest free buffer page, INT32_MAX if there is none. */
    method FrontendBufferPageCalculate() returns (frontend: nat)
      requires Tied()
      ensures |st.bufValid| == g.buffers
      ensures frontend == INT32_MAX ==> FreeCount(st.bufValid, g.buffers) == 0
      ensures frontend != INT32_MAX ==>
                && frontend < g.buffers && FreeRow(st.bufValid[frontend])
                && forall i :: 0 <= i < frontend ==> !FreeRow(st.bufValid[i])
    {
      hide Tied, FreeRow;
      TiedShape();
      frontend := INT32_MAX;
      for i := 0 to g.buffers
        invariant frontend == INT32_MAX ==> forall j :: 0 <= j < i ==> !FreeRow(st.bufValid[j])
        invariant frontend != INT32_MAX ==>
                    && frontend < i && FreeRow(st.bufValid[frontend])
                    && forall j :: 0 <= j < frontend ==> !FreeRow(st.bufValid[j])
      {
        var free := IsFreeRow(i);
        if free {
          if frontend > i { frontend := i; }
        }
      }
    }

    /** Storing sectors from..to of lpn in buffer page b. */
    method FillSectors(lpn: nat, b: nat, from: nat, to: nat, src: seq<u32>, pos: nat)
      requires Tied() && lpn < NLpns(g) && b < g.buffers
      requires from <= to <= SECTORS_PER_PAGE && pos + to - from <= |src|
      modifies this`st, buffer_pblk, buffer_isValid
      ensures Tied() && b < |old(st).bufValid| && b < |old(st).bufData|
      ensures st == old(st).(bufValid := old(st).bufValid[b := RowFilled(old(st).bufValid[b], from, to, lpn)],
                             bufData := old(st).bufData[b := PageFilled(old(st).bufData[b], from, to, src, pos)])
    {
      hide Tied;
      TiedShape();
      ghost var st0 := st;
      assert st.bufValid[b] == RowFilled(st.bufValid[b], from, from, lpn);
      assert st.bufData[b] == PageFilled(st.bufData[b], from, from, src, pos);
      for sect := from to to
        invariant Tied()
        invariant st == st0.(bufValid := st0.bufValid[b := RowFilled(st0.bufValid[b], from, sect, lpn)],
                             bufData := st0.bufData[b := PageFilled(st0.bufData[b], from, sect, src, pos)])
      {
        PutSector(b, sect, lpn, src[pos + sect - from]);
        assert st.bufValid[b] == RowFilled(st0.bufValid[b], from, sect + 1, lpn);
        assert st.bufData[b] == PageFilled(st0.bufData[b], from, sect + 1, src, pos);
      }
    }

    /** One page of write_to_buffer: its own buffer page, or the lowest free one. */
    method BufferPage(lpn: nat, from: nat, to: nat, src: seq<u32>, pos: nat)
      requires Valid() && lpn < NLpns(g)
      requires from < to <= SECTORS_PER_PAGE && pos + to - from <= |src|
      requires st.bufL2p[lpn] == UNUSED ==> FreeCount(st.bufValid, g.buffers) > 0
      modifies this`st, buffer_L2P, buffer_pblk, buffer_isValid
      ensures Valid()
      ensures Readable(g, old(st)) && PageUpdated(g, old(st), st, lpn, from, to, src, pos)
      ensures |st.bufL2p| == NLpns(g) && st.bufL2p[lpn] != UNUSED
      ensures st.bufL2p == old(st).bufL2p[lpn := st.bufL2p[lpn]]
      ensures FreeCount(st.bufValid, g.buffers)
              == FreeCount(old(st).bufValid, g.buffers) - (if old(st).bufL2p[lpn] == UNUSED then 1 else 0)
    {
      hide Tied, BankOk, RowOf, FreeRow, PageUpdated, Sector;
      TiedShape();
      ghost var st0 := st;
      var buffer_next_ppn := FrontendBufferPageCalculate();
      var b := BufferOf(lpn);
      if b == UNUSED {
        if buffer_next_ppn == INT32_MAX {
          assert false;
          return;
        }
        b := buffer_next_ppn;
        LinkBuffer(lpn, b);
      }
      assert st.bufL2p == st0.bufL2p[lpn := b];
      assert Target(g, st0, lpn, b);
      FillSectors(lpn, b, from, to, src, pos);
      assert st == Buffered(st0, lpn, b, from, to, src, pos);
      BufferedUpdates(g, st0, lpn, b, from, to, src, pos);
      BufferedKeepsBuffer(g, st0, lpn, b, from, to, src, pos);
    }

    /** The page loop of write_to_buffer: with enough free buffer pages it stores the whole run. */
    method BufferPages(lba: nat, write_buffer: seq<u32>)
      requires Valid() && InRange(g, lba, |write_buffer|)
      requires LastLpn(lba, |write_buffer|) < NLpns(g)
      requires NeededCount(st.bufL2p, FirstLpn(lba), LastLpn(lba, |write_buffer|) + 1)
               <= FreeCount(st.bufValid, g.buffers)
      modifies this`st, buffer_L2P, buffer_pblk, buffer_isValid
      ensures Valid()
      ensures View(g, st) == Overwrite(old(View(g, st)), lba, write_buffer)
    {
      hide Tied, BankOk, RowOf, FreeRow, Sector, PageUpdated, WrittenBelow, View, Overwrite, FreeCount, NeededCount;
      var n := |write_buffer|;
      var first, last := FirstLpn(lba), LastLpn(lba, n);
      ghost var st0 := st;
      WrittenNothing(g, st, lba, write_buffer);
      for lpn := first to last + 1
        invariant Valid() && Readable(g, st0) && Readable(g, st)
        invariant NeededCount(st.bufL2p, lpn, last + 1) <= FreeCount(st.bufValid, g.buffers)
        invariant WrittenBelow(g, st0, st, lba, write_buffer, lpn)
      {
        ghost var st1 := st;
        PieceBounds(g, lba, n, lpn);
        NeededFront(st.bufL2p, lpn, last + 1);
        BufferPage(lpn, From(lba, lpn), To(lba, n, lpn), write_buffer, Pos(lba, lpn));
        NeededElsewhere(st1.bufL2p, lpn + 1, last + 1, lpn, st.bufL2p[lpn]);
        WrittenOneMore(g, st0, st1, st, lba, write_buffer, lpn);
      }
      WrittenAll(g, st0, st, lba, write_buffer);
    }

    /** The page loop of write_to_buffer for an empty write elsewhere: a page not buffered yet is linked to the lowest
        free buffer page, and nothing is stored there. */
    method BufferNothing(lba: nat)
      requires Valid() && OnDevice(g, lba, 0) && lba > 0
      requires NeededCount(st.bufL2p, FirstLpn(lba), FirstLpn(lba) + SendKazu(lba, 0))
               <= FreeCount(st.bufValid, g.buffers)
      modifies this`st, buffer_L2P
      ensures Sound() && BufShape(g, st) && View(g, st) == old(View(g, st))
      ensures |old(st).bufL2p| == NLpns(g) && FirstLpn(lba) < NLpns(g)
      ensures BufOk(g, st) <==> !(EmptyWrite(lba, 0) && old(st).bufL2p[FirstLpn(lba)] == UNUSED)
    {
      hide Tied, BankOk, RowOf, FreeRow, View;
      TiedShape();
      EmptyWriteBounds(g, lba, 0);
      if SendKazu(lba, 0) == 1 {
        NeededFront(st.bufL2p, FirstLpn(lba), FirstLpn(lba) + 1);
        var buffer_next_ppn := FrontendBufferPageCalculate();
        var b := BufferOf(FirstLpn(lba));
        if b == UNUSED {
          if buffer_next_ppn == INT32_MAX {
            assert false;
            return;
          }
          EmptyLink(g, st, FirstLpn(lba), buffer_next_ppn);
          LinkBuffer(FirstLpn(lba), buffer_next_ppn);
        }
      }
    }

    /** One page of write_to_buffer's loop for an empty write at sector 0: eight words from behind the host's buffer, or
        the end, when there is no buffer page for it. */
    method StrayPage(lpn: nat, words: Page, ghost st0: State, ghost stray: seq<u32>) returns (done: bool)
      requires Valid() && lpn <= g.buffers < NLpns(g) && StraySoFar(g, st0, st, stray, lpn)
      modifies this`st, buffer_L2P, buffer_pblk, buffer_isValid
      ensures Valid()
      ensures done ==> st == old(st) && lpn < |st.bufL2p| && st.bufL2p[lpn] == UNUSED
      ensures done ==> |st.bufValid| == g.buffers && FreeCount(st.bufValid, g.buffers) == 0
      ensures !done ==> lpn < g.buffers && StraySoFar(g, st0, st, stray + words, lpn + 1)
    {
      hide Tied, BankOk, RowOf, FreeRow, PageUpdated, FreeCount, StraySoFar, Sector;
      TiedShape();
      ghost var st1 := st;
      var buffer_next_ppn := FrontendBufferPageCalculate();
      var b := BufferOf(lpn);
      if b == UNUSED && buffer_next_ppn == INT32_MAX {
        return true;
      }
      SomeRowFree(st.bufValid, g.buffers, buffer_next_ppn);
      BufferPage(lpn, 0, SECTORS_PER_PAGE, words, 0);
      StrayStep(g, st0, st1, st, stray, words, lpn);
      StrayBound(g, st0, st, stray + words, lpn + 1);
      done := false;
    }

    /** That loop: its bound is the largest unsigned number. */
    method BufferStray() returns (ghost stray: seq<u32>)
      requires Valid() && g.buffers < NLpns(g)
      modifies this`st, buffer_L2P, buffer_pblk, buffer_isValid
      ensures Valid() && BufShape(g, old(st)) && |stray| <= NSectors(g)
      ensures View(g, st) == Overwrite(old(View(g, st)), 0, stray)
      ensures exists m: nat :: StrayEnd(g, old(st), m) && |stray| == m * SECTORS_PER_PAGE
    {
      hide Tied, BankOk, RowOf, FreeRow, View, Overwrite, StraySoFar, StrayEnd, FreeCount;
      ghost var st0 := st;
      StrayStart(g, st);
      stray := [];
      var lpn, done := 0, false;
      while true
        invariant Valid() && lpn <= g.buffers && StraySoFar(g, st0, st, stray, lpn)
        decreases g.buffers - lpn
      {
        var words: Page := *;
        done := StrayPage(lpn, words, st0, stray);
        if done {
          StrayDone(g, st0, st, stray, lpn);
          return;
        }
        stray := stray + words;
        lpn := lpn + 1;
      }
    }

    /** write_to_buffer: flush first if the pages this write needs are not free. The words stray are stored too, from
        behind the host's buffer. */
    method WriteToBuffer(lba: nat, write_buffer: seq<u32>) returns (ghost stray: seq<u32>)
      requires Valid() && OnDevice(g, lba, |write_buffer|) && SendKazu(lba, |write_buffer|) <= g.buffers
      requires StrayWrite(lba, |write_buffer|) ==> g.buffers < NLpns(g)
      modifies this`st, nand, nand.nand, nand.iswritten, nand.blk_index,
               L2P, isValid, next_ppn, gc_trigger_ppn, free_pblk,
               buffer_L2P, buffer_pblk, buffer_isValid
      ensures Sound() && BufShape(g, st) && BufShape(g, old(st)) && lba + |write_buffer + stray| <= NSectors(g)
      ensures View(g, st) == Overwrite(old(View(g, st)), lba, write_buffer + stray)
      ensures if StrayWrite(lba, |write_buffer|)
              then exists m: nat :: StrayEnd(g, old(st), m) && |stray| == m * SECTORS_PER_PAGE
              else stray == []
      ensures FirstLpn(lba) < NLpns(g)
      ensures BufOk(g, st) <==> !(EmptyWrite(lba, |write_buffer|) && old(st).bufL2p[FirstLpn(lba)] == UNUSED)
    {
      hide Tied, BankOk, RowOf, FreeRow, View, Overwrite, FreeCount, StrayEnd;
      TiedShape();
      var n := |write_buffer|;
      var first, send_kazu := FirstLpn(lba), SendKazu(lba, n);
      EmptyWriteBounds(g, lba, n);
      var buffer_page_needed := NeededBufferPageCalculate(first, send_kazu);
      var buffer_page_remaining := UsableBufferPageCalculate();
      if EmptyWrite(lba, n) {
        NeededFront(st.bufL2p, first, first + 1);
      }
      if StrayWrite(lba, n) {
        NeededNone(st.bufL2p, first);
        stray := BufferStray();
        assert write_buffer + stray == stray;
        return;
      }
      if buffer_page_needed > buffer_page_remaining {
        FtlFlush();
      }
      stray := [];
      assert write_buffer + stray == write_buffer;
      if n > 0 {
        PieceBounds(g, lba, n, LastLpn(lba, n));
        BufferPages(lba, write_buffer);
      } else {
        OverwriteNothing(View(g, st), lba, write_buffer);
        BufferNothing(lba);
      }
    }

    /** ftl_write: runs that span more pages than the buffer has go straight to flash. A write is served, storing what
        it is given and nothing else and leaving the buffer sound, except for two families of empty ones. */
    method FtlWrite(lba: nat, write_buffer: seq<u32>) returns (ghost stray: seq<u32>)
      requires Valid() && OnDevice(g, lba, |write_buffer|)
      requires StrayWrite(lba, |write_buffer|) ==> g.buffers < NLpns(g)
      modifies this`st, nand, nand.nand, nand.iswritten, nand.blk_index,
               L2P, isValid, next_ppn, gc_trigger_ppn, free_pblk,
               buffer_L2P, buffer_pblk, buffer_isValid
      ensures Sound() && BufShape(g, st) && BufShape(g, old(st)) && lba + |write_buffer + stray| <= NSectors(g)
      ensures View(g, st) == Overwrite(old(View(g, st)), lba, write_buffer + stray)
      ensures if StrayWrite(lba, |write_buffer|)
              then exists m: nat :: StrayEnd(g, old(st), m) && |stray| == m * SECTORS_PER_PAGE
              else stray == []
      ensures FirstLpn(lba) < NLpns(g)
      ensures Valid() <==> !(EmptyWrite(lba, |write_buffer|) && old(st).bufL2p[FirstLpn(lba)] == UNUSED)
      ensures Valid() && stray == [] <==> Served(g, old(st), lba, |write_buffer|)
    {
      hide Tied, BankOk, RowOf, FreeRow, View, Overwrite, StrayEnd, FreeCount;
      TiedShape();
      EmptyWriteBounds(g, lba, |write_buffer|);
      var nsect := |write_buffer|;
      ghost var st0 := st;
      if nsect > g.buffers * SECTORS_PER_PAGE * SECTOR_SIZE || SendKazu(lba, nsect) > g.buffers {
        WriteDirectlyNand(lba, write_buffer);
        stray := [];
        assert write_buffer + stray == write_buffer;
      } else {
        stray := WriteToBuffer(lba, write_buffer);
        if StrayWrite(lba, nsect) {
          ghost var m: nat :| StrayEnd(g, st0, m) && |stray| == m * SECTORS_PER_PAGE;
          StrayEndsAtOnce(g, st0, m);
        }
      }
    }

    /** A buffer page found free is counted. */
    static lemma SomeRowFree(rows: seq<Row>, n: nat, i: nat)
      requires n <= |rows|
      ensures i < n && FreeRow(rows[i]) ==> FreeCount(rows, n) > 0
    {
      hide FreeRow;
    }

    static lemma StrayBound(g: Geometry, st0: State, st: State, stray: seq<u32>, lpn: nat)
      requires StraySoFar(g, st0, st, stray, lpn) && BufOk(g, st)
      ensures lpn <= g.buffers
    {
      hide BankOk, RowOf, FreeRow, WrittenBelow, FreeCount, NeededCount;
      BufferedAtMost(g, st, lpn);
    }

    /** Pages that are all buffered are no more than the buffer has. */
    static lemma BufferedAtMost(g: Geometry, st: State, n: nat)
      requires BufOk(g, st) && n <= NLpns(g) && forall l: nat :: l < n ==> st.bufL2p[l] != UNUSED
      ensures n <= g.buffers
    {
      hide RowOf, FreeRow;
      var s: seq<nat> := seq(n, l requires 0 <= l < n => st.bufL2p[l]);
      forall i, j | 0 <= i < j < n
        ensures s[i] != s[j]
      {
        BufferedDistinct(g, st, i, j);
      }
      Pigeonhole(s, g.buffers);
    }

    // ---- flushing ------------------------------------------------------------------------------------------------

    /** The logical page buffered in buffer page i, -1 if the page is free. */
    method OwnerOfBuffer(i: nat) returns (lpn: int)
      requires Tied() && i < g.buffers
      ensures i < |st.bufValid|
      ensures FreeRow(st.bufValid[i]) ==> lpn == UNUSED
      ensures !FreeRow(st.bufValid[i]) ==>
                exists s :: 0 <= s < SECTORS_PER_PAGE && st.bufValid[i][s] != UNUSED && lpn == st.bufValid[i][s]
    {
      hide Tied;
      TiedShape();
      lpn := UNUSED;
      for sect := 0 to SECTORS_PER_PAGE
        invariant forall t :: 0 <= t < sect ==> st.bufValid[i][t] == UNUSED
        invariant lpn == UNUSED
      {
        var l, _ := BufferSlot(i, sect);
        if l != UNUSED {
          lpn := l;
          break;
        }
      }
    }

    /** Moves the buffered sectors of page b into buff, which holds the page's older contents, and frees them. */
    method TakeSectors(b: nat, buff: Page) returns (buff': Page)
      requires Tied() && b < g.buffers
      modifies this`st, buffer_isValid
      ensures Tied() && b < |old(st).bufValid| && b < |old(st).bufData|
      ensures st == old(st).(bufValid :=
                               old(st).bufValid[b := RowFilled(old(st).bufValid[b], 0, SECTORS_PER_PAGE, UNUSED)])
      ensures forall s :: 0 <= s < SECTORS_PER_PAGE ==>
                buff'[s] == if old(st).bufValid[b][s] != UNUSED then old(st).bufData[b][s] else buff[s]
    {
      hide Tied;
      TiedShape();
      ghost var st0 := st;
      ghost var row := st.bufValid[b];
      assert row == RowFilled(row, 0, 0, UNUSED);
      buff' := buff;
      for sect := 0 to SECTORS_PER_PAGE
        invariant Tied()
        invariant st == st0.(bufValid := st0.bufValid[b := RowFilled(row, 0, sect, UNUSED)])
        invariant forall s :: 0 <= s < SECTORS_PER_PAGE ==>
                    buff'[s] == if s < sect && row[s] != UNUSED then st0.bufData[b][s] else buff[s]
      {
        var l, v := BufferSlot(b, sect);
        if l != UNUSED {
          buff' := buff'[sect := v];
        }
        ClearSector(b, sect);
        assert st.bufValid[b] == RowFilled(row, 0, sect + 1, UNUSED);
      }
    }

    /** ftl_read of one whole page. */
    method ReadWholePage(lpn: nat) returns (buff: Page)
      requires Valid() && lpn < NLpns(g)
      modifies nand`faults
      ensures Valid() && st == old(st)
      ensures forall s :: 0 <= s < SECTORS_PER_PAGE ==> buff[s] == Sector(g, st, lpn, s)
    {
      hide Tied, BankOk, RowOf, FreeRow, Sector;
      var out := new u32[SECTORS_PER_PAGE];
      FtlRead(lpn * SECTORS_PER_PAGE, SECTORS_PER_PAGE, out);
      buff := out[..];
      forall s | 0 <= s < SECTORS_PER_PAGE
        ensures buff[s] == Sector(g, st, lpn, s)
      {
        assert View(g, st)[lpn * SECTORS_PER_PAGE + s] == Sector(g, st, lpn, s);
      }
    }

    /** The contents a flushed page starts from: what ftl_read returns if the page is on flash, else erased. */
    method FlushBase(lpn: nat) returns (buff: Page)
      requires Valid() && lpn < NLpns(g)
      modifies nand`faults
      ensures Valid() && st == old(st)
      ensures forall s :: 0 <= s < SECTORS_PER_PAGE && !BufferedSector(g, st, lpn, s) ==>
                buff[s] == Sector(g, st, lpn, s)
    {
      hide Tied, BankOk, RowOf, FreeRow;
      TiedShape();
      LpnSplit(g, lpn);
      var ppn := MappedTo(BankOf(g, lpn), HalfOf(g, lpn));
      if ppn != UNMAPPED {
        buff := ReadWholePage(lpn);
      } else {
        buff := seq(SECTORS_PER_PAGE, _ => ERASED);
      }
    }

    /** One buffer page of ftl_flush. */
    method FlushPage(b: nat, lpn: nat)
      requires Valid() && b < g.buffers && lpn < NLpns(g) && st.bufL2p[lpn] == b
      modifies this`st, nand, nand.nand, nand.iswritten, nand.blk_index,
               L2P, isValid, next_ppn, gc_trigger_ppn, free_pblk,
               buffer_L2P, buffer_pblk, buffer_isValid
      ensures Valid()
      ensures Readable(g, old(st)) && SameSectors(g, old(st), st)
      ensures st.bufValid == Dropped(old(st), lpn).bufValid && st.bufL2p == Dropped(old(st), lpn).bufL2p
    {
      hide Tied, BankOk, RowOf, FreeRow, SameSectors, NandPage, RowFilled;
      ghost var st0 := st;
      var buff := FlushBase(lpn);
      buff := TakeSectors(b, buff);
      ghost var st1 := st;
      assert forall s :: 0 <= s < SECTORS_PER_PAGE ==> buff[s] == Sector(g, st0, lpn, s);
      hide Sector, NandWritten;
      LpnSplit(g, lpn);
      WriteThroughLpn(BankOf(g, lpn), HalfOf(g, lpn), buff);
      ghost var st2 := st;
      LinkBuffer(lpn, UNUSED);
      NandWrittenAround(g, st0, st1, st2, st, lpn, buff);
      FlushUpdates(g, st0, st, lpn, buff);
    }

    /** ftl_flush: the buffer ends up empty and no sector changes its value. */
    method FtlFlush()
      requires Valid()
      modifies this`st, nand, nand.nand, nand.iswritten, nand.blk_index,
               L2P, isValid, next_ppn, gc_trigger_ppn, free_pblk,
               buffer_L2P, buffer_pblk, buffer_isValid
      ensures Valid()
      ensures View(g, st) == old(View(g, st))
      ensures FreeCount(st.bufValid, g.buffers) == g.buffers
      ensures forall lpn :: 0 <= lpn < NLpns(g) ==> st.bufL2p[lpn] == UNUSED
    {
      hide Tied, BankOk, RowOf, FreeRow, Sector, SameSectors, View, Dropped;
      ghost var st0 := st;
      for buffer_ppn := 0 to g.buffers
        invariant Valid() && View(g, st) == View(g, st0)
        invariant forall i :: 0 <= i < buffer_ppn ==> FreeRow(st.bufValid[i])
      {
        var lpn := OwnerOfBuffer(buffer_ppn);
        if lpn != UNUSED {
          ghost var st1 := st;
          FlushPage(buffer_ppn, lpn);
          SameView(g, st1, st);
          DroppedRows(g, st1, lpn);
        }
      }
      assert FreeCount(st.bufValid, g.buffers) == g.buffers;
    }
  }
}
