/** The write buffer of HW3/ftl.c as a value: what buffering, draining and flushing one page do to the host's view,
    and why a buffered write never runs out of buffer pages. */
module FtlBuffer {
  import opened Common
  import opened NandFlash
  import opened FtlBank
  import opened FtlState

  // ---- counting buffer pages -------------------------------------------------------------------------

  /** Free rows among the first n. */
  function FreeCount(rows: seq<Row>, n: nat): (c: nat)
    requires n <= |rows|
    ensures c <= n
    ensures c == 0 <==> forall i :: 0 <= i < n ==> !FreeRow(rows[i])
    ensures c == n <==> forall i :: 0 <= i < n ==> FreeRow(rows[i])
  {
    if n == 0 then 0 else FreeCount(rows, n - 1) + (if FreeRow(rows[n - 1]) then 1 else 0)
  }

  lemma {:induction false} FreeCountUpdate(rows: seq<Row>, i: nat, row: Row, n: nat)
    requires i < |rows| && n <= |rows|
    ensures FreeCount(rows[i := row], n) == FreeCount(rows, n)
            + (if i < n && FreeRow(row) then 1 else 0) - (if i < n && FreeRow(rows[i]) then 1 else 0)
  {
    if n > 0 {
      FreeCountUpdate(rows, i, row, n - 1);
    }
  }

  /** Logical pages in lo..hi that have no buffer page yet. */
  function NeededCount(l2p: seq<int>, lo: nat, hi: nat): (c: nat)
    requires lo <= hi <= |l2p|
    ensures c <= hi - lo
    decreases hi - lo
  {
    if lo == hi then 0 else NeededCount(l2p, lo, hi - 1) + (if l2p[hi - 1] == UNUSED then 1 else 0)
  }

  lemma NeededNone(l2p: seq<int>, lo: nat)
    requires lo <= |l2p|
    ensures NeededCount(l2p, lo, lo) == 0
  {
  }

  lemma {:induction false} NeededFront(l2p: seq<int>, lo: nat, hi: nat)
    requires lo < hi <= |l2p|
    ensures NeededCount(l2p, lo, hi) == (if l2p[lo] == UNUSED then 1 else 0) + NeededCount(l2p, lo + 1, hi)
    decreases hi - lo
  {
    if lo + 1 < hi {
      NeededFront(l2p, lo, hi - 1);
    }
  }

  lemma {:induction false} NeededElsewhere(l2p: seq<int>, lo: nat, hi: nat, i: nat, v: int)
    requires lo <= hi <= |l2p| && i < lo
    ensures NeededCount(l2p[i := v], lo, hi) == NeededCount(l2p, lo, hi)
    decreases hi - lo
  {
    if lo < hi {
      NeededElsewhere(l2p, lo, hi - 1, i, v);
    }
  }

  // ---- buffering sectors of one page ---------------------------------------------------------------------

  function RowFilled(row: Row, from: nat, to: nat, v: int): Row {
    seq(SECTORS_PER_PAGE, s requires 0 <= s < SECTORS_PER_PAGE => if from <= s < to then v else row[s])
  }

  function PageFilled(page: Page, from: nat, to: nat, src: seq<u32>, pos: nat): Page
    requires from <= to <= SECTORS_PER_PAGE && pos + to - from <= |src|
  {
    seq(SECTORS_PER_PAGE, s requires 0 <= s < SECTORS_PER_PAGE =>
      if from <= s < to then src[pos + s - from] else page[s])
  }

  /** The buffer after sectors from..to of lpn were stored in buffer page b. */
  function Buffered(st: State, lpn: nat, b: nat, from: nat, to: nat, src: seq<u32>, pos: nat): State
    requires lpn < |st.bufL2p| && b < |st.bufData| && b < |st.bufValid|
    requires from <= to <= SECTORS_PER_PAGE && pos + to - from <= |src|
  {
    st.(bufL2p := st.bufL2p[lpn := b],
        bufValid := st.bufValid[b := RowFilled(st.bufValid[b], from, to, lpn)],
        bufData := st.bufData[b := PageFilled(st.bufData[b], from, to, src, pos)])
  }

  /** Buffer page b is where lpn's sectors go: its own page, or a free one if it has none. */
  ghost predicate Target(g: Geometry, st: State, lpn: nat, b: nat)
    requires BufShape(g, st) && lpn < NLpns(g)
  {
    b < g.buffers && if st.bufL2p[lpn] == UNUSED then FreeRow(st.bufValid[b]) else st.bufL2p[lpn] == b
  }

  lemma BufferedKeepsBuffer(g: Geometry, st: State, lpn: nat, b: nat, from: nat, to: nat, src: seq<u32>, pos: nat)
    requires BufOk(g, st) && lpn < NLpns(g) && Target(g, st, lpn, b)
    requires from < to <= SECTORS_PER_PAGE && pos + to - from <= |src|
    ensures BufOk(g, Buffered(st, lpn, b, from, to, src, pos))
    ensures FreeCount(Buffered(st, lpn, b, from, to, src, pos).bufValid, g.buffers)
            == FreeCount(st.bufValid, g.buffers) - (if st.bufL2p[lpn] == UNUSED then 1 else 0)
  {
    var st' := Buffered(st, lpn, b, from, to, src, pos);
    assert st'.bufValid[b][from] == lpn;
    FreeCountUpdate(st.bufValid, b, st'.bufValid[b], g.buffers);
    forall l | 0 <= l < NLpns(g) && st'.bufL2p[l] != UNUSED && l != lpn
      ensures st'.bufL2p[l] != b
    {
      BufferedDistinct(g, st, l, lpn);
      assert !FreeRow(st.bufValid[st.bufL2p[l]]);
    }
  }

  lemma BufferedSectors(g: Geometry, st: State, lpn: nat, b: nat, from: nat, to: nat, src: seq<u32>, pos: nat,
                        l: nat, s: nat)
    requires BanksOk(g, st) && BufOk(g, st) && lpn < NLpns(g) && Target(g, st, lpn, b)
    requires from < to <= SECTORS_PER_PAGE && pos + to - from <= |src|
    requires l < NLpns(g) && s < SECTORS_PER_PAGE
    ensures BufShape(g, Buffered(st, lpn, b, from, to, src, pos))
    ensures Sector(g, Buffered(st, lpn, b, from, to, src, pos), l, s)
            == if l == lpn && from <= s < to then src[pos + s - from] else Sector(g, st, l, s)
  {
    var st' := Buffered(st, lpn, b, from, to, src, pos);
    assert NandPage(g, st', l) == NandPage(g, st, l);
    BufferedDistinct(g, st, l, lpn);
  }

  // ---- writing a page to flash and dropping its buffer page ------------------------------------------------

  lemma StoresOnlyFromAppend(g: Geometry, k: Bank, k': Bank, half: nat, data: Page)
    requires BankOk(g, k) && BankOk(g, k')
    requires forall m :: 0 <= m < g.Lpns() ==>
               Stored(g, k', m) == if m == half then Some(data) else Stored(g, k, m)
    ensures StoresOnly(g, k, k', half, data)
  {
  }

  lemma StoresOnlyAfterSame(g: Geometry, k: Bank, k1: Bank, k': Bank, half: nat, data: Page)
    requires BankOk(g, k) && BankOk(g, k1) && BankOk(g, k')
    requires SameStored(g, k, k1) && StoresOnly(g, k1, k', half, data)
    ensures StoresOnly(g, k, k', half, data)
  {
  }

  lemma SameStoredRefl(g: Geometry, k: Bank)
    requires BankOk(g, k)
    ensures SameStored(g, k, k)
  {
  }

  lemma FrontierInBounds(g: Geometry, k: Bank)
    requires BankOk(g, k)
    ensures k.next <= k.trigger
  {
  }

  /** The buffer without lpn. */
  function Dropped(st: State, lpn: nat): State
    requires lpn < |st.bufL2p| && UNUSED <= st.bufL2p[lpn] < |st.bufValid|
  {
    if st.bufL2p[lpn] == UNUSED then st
    else st.(bufL2p := st.bufL2p[lpn := UNUSED],
             bufValid := st.bufValid[st.bufL2p[lpn] :=
                           RowFilled(st.bufValid[st.bufL2p[lpn]], 0, SECTORS_PER_PAGE, UNUSED)])
  }

  lemma DroppedKeepsBuffer(g: Geometry, st: State, lpn: nat)
    requires BufOk(g, st) && lpn < NLpns(g)
    ensures BufOk(g, Dropped(st, lpn)) && Dropped(st, lpn).bufL2p[lpn] == UNUSED
  {
    var st' := Dropped(st, lpn);
    var b := st.bufL2p[lpn];
    if b != UNUSED {
      forall l | 0 <= l < NLpns(g) && st'.bufL2p[l] != UNUSED
        ensures st'.bufL2p[l] != b
      {
        BufferedDistinct(g, st, l, lpn);
      }
    }
  }

  /** A page written to flash with the buffer's sectors merged in leaves all other sectors as they were. */
  lemma DrainedSectors(g: Geometry, st: State, st': State, lpn: nat, data: Page, l: nat, s: nat)
    requires BanksOk(g, st) && BufOk(g, st) && lpn < NLpns(g) && l < NLpns(g) && s < SECTORS_PER_PAGE
    requires NandWritten(g, Dropped(st, lpn), st', lpn, data)
    ensures BufOk(g, st')
    ensures Sector(g, st', l, s) == if l == lpn then data[s] else Sector(g, st, l, s)
  {
    DroppedKeepsBuffer(g, st, lpn);
    assert NandPage(g, Dropped(st, lpn), l) == NandPage(g, st, l);
    BufferedDistinct(g, st, l, lpn);
  }
}
