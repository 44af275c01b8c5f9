/** How a run of sectors is cut into page pieces, and what writing the pieces one by one does to the host's view. */
module FtlHost {
  import opened Common
  import opened NandFlash
  import opened FtlBank
  import opened FtlState
  import opened FtlBuffer

  /** The first of the n sectors from lba on, its page, and the last page of the run. */
  function FirstLpn(lba: nat): nat {
    lba / SECTORS_PER_PAGE
  }

  function LastLpn(lba: nat, n: nat): nat
    requires n > 0
  {
    (lba + n - 1) / SECTORS_PER_PAGE
  }

  /** The piece of page lpn that lies in the run: sectors From..To, coming from position Pos of the host buffer. */
  function From(lba: nat, lpn: nat): nat {
    if lpn == FirstLpn(lba) then lba % SECTORS_PER_PAGE else 0
  }

  function To(lba: nat, n: nat, lpn: nat): nat
    requires n > 0
  {
    if lpn == LastLpn(lba, n) then (lba + n - 1) % SECTORS_PER_PAGE + 1 else SECTORS_PER_PAGE
  }

  function Pos(lba: nat, lpn: nat): int {
    lpn * SECTORS_PER_PAGE + From(lba, lpn) - lba
  }

  ghost predicate InRange(g: Geometry, lba: nat, n: nat)
    requires g.Valid()
  {
    n > 0 && lba + n <= NSectors(g)
  }

  /** A run that starts on the device and does not leave it; it may be empty. */
  ghost predicate OnDevice(g: Geometry, lba: nat, n: nat)
    requires g.Valid()
  {
    lba < NSectors(g) && lba + n <= NSectors(g)
  }

  /** send_kazu, the pages a run touches: an empty run counts one inside a page and none at a page boundary. At sector 0
      its last page is -1 in size_t arithmetic, and the count wraps to 0. */
  function SendKazu(lba: nat, n: nat): (k: nat)
    ensures n > 0 ==> k == LastLpn(lba, n) - FirstLpn(lba) + 1
    ensures n == 0 ==> k == if lba % SECTORS_PER_PAGE == 0 then 0 else 1
  {
    if lba + n == 0 then 0 else 1 + (lba + n - 1) / SECTORS_PER_PAGE - FirstLpn(lba)
  }

  /** An empty write that goes through the page loop once. */
  predicate EmptyWrite(lba: nat, n: nat) {
    n == 0 && SendKazu(lba, n) == 1
  }

  /** An empty write at sector 0, whose page loop has no bound. */
  predicate StrayWrite(lba: nat, n: nat) {
    lba + n == 0
  }

  /** The page where that loop ends: the first one not buffered when the pages before have used up the buffer. */
  ghost predicate StrayEnd(g: Geometry, st: State, m: nat)
    requires BufShape(g, st)
  {
    m < NLpns(g) && st.bufL2p[m] == UNUSED && NeededCount(st.bufL2p, 0, m) == FreeCount(st.bufValid, g.buffers)
  }

  /** It stores nothing exactly if it ends at page 0. */
  lemma StrayEndsAtOnce(g: Geometry, st: State, m: nat)
    requires BufShape(g, st) && StrayEnd(g, st, m)
    ensures m == 0 <==> st.bufL2p[0] == UNUSED && FreeCount(st.bufValid, g.buffers) == 0
  {
    if m > 0 {
      NeededFront(st.bufL2p, 0, m);
    }
  }

  /** The writes that store what they are given and leave the buffer sound. */
  ghost predicate Served(g: Geometry, st: State, lba: nat, n: nat)
    requires BufShape(g, st) && OnDevice(g, lba, n)
  {
    || n > 0
    || (lba % SECTORS_PER_PAGE != 0 && st.bufL2p[FirstLpn(lba)] != UNUSED)
    || (lba % SECTORS_PER_PAGE == 0 && lba > 0)
    || (lba == 0 && st.bufL2p[0] == UNUSED && FreeCount(st.bufValid, g.buffers) == 0)
  }

  lemma EmptyWriteBounds(g: Geometry, lba: nat, n: nat)
    requires g.Valid() && OnDevice(g, lba, n)
    ensures FirstLpn(lba) < NLpns(g) && FirstLpn(lba) + SendKazu(lba, n) <= NLpns(g)
  {
    if n > 0 {
      PieceBounds(g, lba, n, LastLpn(lba, n));
    }
  }

  lemma PieceBounds(g: Geometry, lba: nat, n: nat, lpn: nat)
    requires g.Valid() && InRange(g, lba, n) && FirstLpn(lba) <= lpn <= LastLpn(lba, n)
    ensures lpn < NLpns(g) && From(lba, lpn) < To(lba, n, lpn) <= SECTORS_PER_PAGE
    ensures 0 <= Pos(lba, lpn) && Pos(lba, lpn) + To(lba, n, lpn) - From(lba, lpn) <= n
    ensures lpn < LastLpn(lba, n) ==> Pos(lba, lpn + 1) == Pos(lba, lpn) + To(lba, n, lpn) - From(lba, lpn)
    ensures lpn == LastLpn(lba, n) ==> Pos(lba, lpn) + To(lba, n, lpn) - From(lba, lpn) == n
    ensures Pos(lba, FirstLpn(lba)) == 0
  {
  }

  ghost predicate Readable(g: Geometry, st: State) {
    BanksOk(g, st) && BufShape(g, st)
  }

  /** Sectors from..to of one page replaced, nothing else changed. */
  ghost predicate PageUpdated(g: Geometry, st: State, st': State, lpn: nat, from: nat, to: nat, src: seq<u32>, pos: nat)
    requires Readable(g, st) && Readable(g, st')
    requires from <= to <= SECTORS_PER_PAGE && pos + to - from <= |src|
  {
    forall l, s :: 0 <= l < NLpns(g) && 0 <= s < SECTORS_PER_PAGE ==>
      Sector(g, st', l, s) == if l == lpn && from <= s < to then src[pos + s - from] else Sector(g, st, l, s)
  }

  /** The run's sectors are written on the pages below lpn. */
  ghost predicate WrittenBelow(g: Geometry, st0: State, st: State, lba: nat, src: seq<u32>, lpn: nat)
    requires Readable(g, st0) && Readable(g, st)
  {
    forall l, s :: 0 <= l < NLpns(g) && 0 <= s < SECTORS_PER_PAGE ==>
      Sector(g, st, l, s) == if l < lpn && lba <= l * SECTORS_PER_PAGE + s < lba + |src|
                             then src[l * SECTORS_PER_PAGE + s - lba] else Sector(g, st0, l, s)
  }

  lemma WrittenNothing(g: Geometry, st: State, lba: nat, src: seq<u32>)
    requires Readable(g, st)
    ensures WrittenBelow(g, st, st, lba, src, FirstLpn(lba))
  {
  }

  lemma WrittenOneMore(g: Geometry, st0: State, st: State, st': State, lba: nat, src: seq<u32>, lpn: nat)
    requires Readable(g, st0) && Readable(g, st) && Readable(g, st')
    requires InRange(g, lba, |src|) && FirstLpn(lba) <= lpn <= LastLpn(lba, |src|)
    requires WrittenBelow(g, st0, st, lba, src, lpn)
    requires From(lba, lpn) <= To(lba, |src|, lpn) <= SECTORS_PER_PAGE && 0 <= Pos(lba, lpn)
    requires Pos(lba, lpn) + To(lba, |src|, lpn) - From(lba, lpn) <= |src|
    requires PageUpdated(g, st, st', lpn, From(lba, lpn), To(lba, |src|, lpn), src, Pos(lba, lpn))
    ensures WrittenBelow(g, st0, st', lba, src, lpn + 1)
  {
    forall l, s | 0 <= l < NLpns(g) && 0 <= s < SECTORS_PER_PAGE
      ensures Sector(g, st', l, s) == if l < lpn + 1 && lba <= l * SECTORS_PER_PAGE + s < lba + |src|
                                      then src[l * SECTORS_PER_PAGE + s - lba] else Sector(g, st0, l, s)
    {
      hide Sector;
    }
  }

  /** The flat array of sectors with src stored from lba on. */
  function Overwrite(v: seq<u32>, lba: nat, src: seq<u32>): (v': seq<u32>)
    requires lba + |src| <= |v|
    ensures |v'| == |v|
    ensures forall i :: 0 <= i < |v| ==> v'[i] == if lba <= i < lba + |src| then src[i - lba] else v[i]
  {
    v[..lba] + src + v[lba + |src|..]
  }

  /** A whole page more of the stray words. */
  lemma StrayOneMore(g: Geometry, st0: State, st: State, st': State, stray: seq<u32>, words: Page, lpn: nat)
    requires Readable(g, st0) && Readable(g, st) && Readable(g, st')
    requires |stray| == lpn * SECTORS_PER_PAGE && lpn < NLpns(g) && WrittenBelow(g, st0, st, 0, stray, lpn)
    requires PageUpdated(g, st, st', lpn, 0, SECTORS_PER_PAGE, words, 0)
    ensures WrittenBelow(g, st0, st', 0, stray + words, lpn + 1)
  {
    hide Sector;
    forall l, s | 0 <= l < NLpns(g) && 0 <= s < SECTORS_PER_PAGE
      ensures Sector(g, st', l, s) == if l < lpn + 1 && 0 <= l * SECTORS_PER_PAGE + s < |stray + words|
                                      then (stray + words)[l * SECTORS_PER_PAGE + s] else Sector(g, st0, l, s)
    {
      assert Sector(g, st, l, s) == if l < lpn && 0 <= l * SECTORS_PER_PAGE + s < |stray|
                                    then stray[l * SECTORS_PER_PAGE + s] else Sector(g, st0, l, s);
    }
  }

  /** How far the page loop has come after lpn pages. */
  ghost predicate StraySoFar(g: Geometry, st0: State, st: State, stray: seq<u32>, lpn: nat) {
    && Readable(g, st0) && Readable(g, st) && lpn <= NLpns(g)
    && |stray| == lpn * SECTORS_PER_PAGE && WrittenBelow(g, st0, st, 0, stray, lpn)
    && FreeCount(st.bufValid, g.buffers) + NeededCount(st0.bufL2p, 0, lpn) == FreeCount(st0.bufValid, g.buffers)
    && (forall l: nat :: l < lpn ==> st.bufL2p[l] != UNUSED)
    && (forall l: nat :: lpn <= l < NLpns(g) ==> st.bufL2p[l] == st0.bufL2p[l])
  }

  lemma StrayStart(g: Geometry, st: State)
    requires Readable(g, st)
    ensures StraySoFar(g, st, st, [], 0)
  {
    hide Sector, BankOk, FreeRow;
    WrittenNothing(g, st, 0, []);
  }

  lemma StrayStep(g: Geometry, st0: State, st: State, st': State, stray: seq<u32>, words: Page, lpn: nat)
    requires StraySoFar(g, st0, st, stray, lpn) && lpn < NLpns(g) && Readable(g, st')
    requires PageUpdated(g, st, st', lpn, 0, SECTORS_PER_PAGE, words, 0)
    requires st'.bufL2p == st.bufL2p[lpn := st'.bufL2p[lpn]] && st'.bufL2p[lpn] != UNUSED
    requires FreeCount(st'.bufValid, g.buffers)
             == FreeCount(st.bufValid, g.buffers) - (if st.bufL2p[lpn] == UNUSED then 1 else 0)
    ensures StraySoFar(g, st0, st', stray + words, lpn + 1)
  {
    hide Sector, BankOk, FreeRow, PageUpdated, WrittenBelow, FreeCount;
    StrayOneMore(g, st0, st, st', stray, words, lpn);
  }

  lemma StrayDone(g: Geometry, st0: State, st: State, stray: seq<u32>, lpn: nat)
    requires StraySoFar(g, st0, st, stray, lpn) && lpn < NLpns(g)
    requires st.bufL2p[lpn] == UNUSED && FreeCount(st.bufValid, g.buffers) == 0
    ensures StrayEnd(g, st0, lpn) && |stray| == lpn * SECTORS_PER_PAGE <= NSectors(g)
    ensures View(g, st) == Overwrite(View(g, st0), 0, stray)
  {
    hide Sector, BankOk, FreeRow, WrittenBelow, FreeCount, NeededCount, View, Overwrite;
    StrayWritten(g, st0, st, stray, lpn);
  }

  lemma StrayWritten(g: Geometry, st0: State, st: State, stray: seq<u32>, m: nat)
    requires Readable(g, st0) && Readable(g, st) && m <= NLpns(g) && |stray| == m * SECTORS_PER_PAGE
    requires WrittenBelow(g, st0, st, 0, stray, m)
    ensures View(g, st) == Overwrite(View(g, st0), 0, stray)
  {
    hide Sector;
    var v, w := View(g, st), Overwrite(View(g, st0), 0, stray);
    forall i | 0 <= i < NSectors(g)
      ensures v[i] == w[i]
    {
      assert v[i] == Sector(g, st, i / SECTORS_PER_PAGE, i % SECTORS_PER_PAGE);
    }
  }

  lemma OverwriteNothing(v: seq<u32>, lba: nat, src: seq<u32>)
    requires lba <= |v| && src == []
    ensures Overwrite(v, lba, src) == v
  {
  }

  lemma WrittenAll(g: Geometry, st0: State, st: State, lba: nat, src: seq<u32>)
    requires Readable(g, st0) && Readable(g, st) && InRange(g, lba, |src|)
    requires WrittenBelow(g, st0, st, lba, src, LastLpn(lba, |src|) + 1)
    ensures View(g, st) == Overwrite(View(g, st0), lba, src)
  {
    hide Sector;
    var v, w := View(g, st), Overwrite(View(g, st0), lba, src);
    forall i | 0 <= i < NSectors(g)
      ensures v[i] == w[i]
    {
      assert v[i] == Sector(g, st, i / SECTORS_PER_PAGE, i % SECTORS_PER_PAGE);
    }
  }

  /** Buffer traffic that moves no sector value. */
  ghost predicate SameSectors(g: Geometry, st: State, st': State)
    requires Readable(g, st) && Readable(g, st')
  {
    forall l, s :: 0 <= l < NLpns(g) && 0 <= s < SECTORS_PER_PAGE ==> Sector(g, st', l, s) == Sector(g, st, l, s)
  }

  lemma SameView(g: Geometry, st: State, st': State)
    requires Readable(g, st) && Readable(g, st') && SameSectors(g, st, st')
    ensures View(g, st') == View(g, st)
  {
    hide Sector;
  }

  /** Buffering one page piece. */
  lemma BufferedUpdates(g: Geometry, st: State, lpn: nat, b: nat, from: nat, to: nat, src: seq<u32>, pos: nat)
    requires BanksOk(g, st) && BufOk(g, st) && lpn < NLpns(g) && Target(g, st, lpn, b)
    requires from < to <= SECTORS_PER_PAGE && pos + to - from <= |src|
    ensures var st' := Buffered(st, lpn, b, from, to, src, pos);
            BufOk(g, st') && BanksOk(g, st') && PageUpdated(g, st, st', lpn, from, to, src, pos)
  {
    BufferedKeepsBuffer(g, st, lpn, b, from, to, src, pos);
    var st' := Buffered(st, lpn, b, from, to, src, pos);
    forall l, s | 0 <= l < NLpns(g) && 0 <= s < SECTORS_PER_PAGE
      ensures Sector(g, st', l, s) == if l == lpn && from <= s < to then src[pos + s - from] else Sector(g, st, l, s)
    {
      BufferedSectors(g, st, lpn, b, from, to, src, pos, l, s);
    }
  }

  /** A page linked to a buffer page without storing anything there: the view stays, but the buffer is no longer
      sound. */
  lemma EmptyLink(g: Geometry, st: State, lpn: nat, b: nat)
    requires StateOk(g, st) && lpn < NLpns(g) && st.bufL2p[lpn] == UNUSED && b < g.buffers && FreeRow(st.bufValid[b])
    ensures var st' := st.(bufL2p := st.bufL2p[lpn := b]);
            Readable(g, st') && View(g, st') == View(g, st) && !BufOk(g, st')
  {
    hide BankOk, RowOf;
    var st' := st.(bufL2p := st.bufL2p[lpn := b]);
    assert st'.bufL2p[lpn] == b && FreeRow(st'.bufValid[b]);
    forall l, s | 0 <= l < NLpns(g) && 0 <= s < SECTORS_PER_PAGE
      ensures Sector(g, st', l, s) == Sector(g, st, l, s)
    {
      assert NandPage(g, st', l) == NandPage(g, st, l);
    }
    SameView(g, st, st');
  }

  /** The buffer page still counts as free: the next page to be buffered gets it too, and what is written to that page
      is then read back from this one. */
  lemma EmptyLinkMixesPages(g: Geometry, st: State, l: nat, b: nat, lpn: nat, from: nat, to: nat, src: seq<u32>,
                            pos: nat)
    requires StateOk(g, st) && l < NLpns(g) && st.bufL2p[l] == UNUSED && b < g.buffers && FreeRow(st.bufValid[b])
    requires lpn < NLpns(g) && lpn != l && st.bufL2p[lpn] == UNUSED
    requires from <= to <= SECTORS_PER_PAGE && pos + to - from <= |src|
    ensures var st' := Buffered(st.(bufL2p := st.bufL2p[l := b]), lpn, b, from, to, src, pos);
            Readable(g, st') && forall s :: from <= s < to ==> Sector(g, st', l, s) == src[pos + s - from]
  {
    hide BankOk, RowOf;
  }

  /** Writing one page straight to flash, the buffer's copy merged in and dropped. */
  lemma DirectUpdates(g: Geometry, st: State, st': State, lpn: nat, from: nat, to: nat, src: seq<u32>, pos: nat,
                      data: Page)
    requires BanksOk(g, st) && BufOk(g, st) && lpn < NLpns(g)
    requires from <= to <= SECTORS_PER_PAGE && pos + to - from <= |src|
    requires NandWritten(g, Dropped(st, lpn), st', lpn, data)
    requires forall s :: 0 <= s < SECTORS_PER_PAGE ==>
               data[s] == if from <= s < to then src[pos + s - from] else Sector(g, st, lpn, s)
    ensures BufOk(g, st') && PageUpdated(g, st, st', lpn, from, to, src, pos)
  {
    DrainedSectors(g, st, st', lpn, data, 0 + lpn, 0);
    forall l, s | 0 <= l < NLpns(g) && 0 <= s < SECTORS_PER_PAGE
      ensures Sector(g, st', l, s) == if l == lpn && from <= s < to then src[pos + s - from] else Sector(g, st, l, s)
    {
      DrainedSectors(g, st, st', lpn, data, l, s);
    }
  }

  /** Flushing one page. */
  lemma FlushUpdates(g: Geometry, st: State, st': State, lpn: nat, data: Page)
    requires BanksOk(g, st) && BufOk(g, st) && lpn < NLpns(g)
    requires NandWritten(g, Dropped(st, lpn), st', lpn, data)
    requires forall s :: 0 <= s < SECTORS_PER_PAGE ==> data[s] == Sector(g, st, lpn, s)
    ensures BufOk(g, st') && SameSectors(g, st, st')
  {
    DrainedSectors(g, st, st', lpn, data, 0 + lpn, 0);
    forall l, s | 0 <= l < NLpns(g) && 0 <= s < SECTORS_PER_PAGE
      ensures Sector(g, st', l, s) == Sector(g, st, l, s)
    {
      DrainedSectors(g, st, st', lpn, data, l, s);
    }
  }

  lemma ReadableOk(g: Geometry, st: State)
    requires StateOk(g, st)
    ensures Readable(g, st)
  {
  }

  lemma DroppedUnbuffered(st: State, lpn: nat)
    requires lpn < |st.bufL2p| && UNUSED <= st.bufL2p[lpn] < |st.bufValid|
    ensures st.bufL2p[lpn] == UNUSED ==> Dropped(st, lpn) == st
  {
  }

  lemma DroppedBanks(g: Geometry, st: State, lpn: nat)
    requires BanksOk(g, st) && lpn < |st.bufL2p| && UNUSED <= st.bufL2p[lpn] < |st.bufValid|
    ensures BanksOk(g, Dropped(st, lpn))
  {
  }

  /** Dropping a page frees its buffer page and leaves the free ones free. */
  lemma DroppedRows(g: Geometry, st: State, lpn: nat)
    requires BufOk(g, st) && lpn < NLpns(g)
    ensures forall i :: 0 <= i < g.buffers && FreeRow(st.bufValid[i]) ==> FreeRow(Dropped(st, lpn).bufValid[i])
    ensures st.bufL2p[lpn] != UNUSED ==> FreeRow(Dropped(st, lpn).bufValid[st.bufL2p[lpn]])
  {
  }

  /** ftl_flush clears the row, writes the page and unlinks it in this order; the outcome is the page dropped from
      the buffer and stored on flash. */
  lemma NandWrittenAround(g: Geometry, st0: State, st1: State, st2: State, st': State, lpn: nat, data: Page)
    requires BanksOk(g, st0) && BufShape(g, st0) && lpn < NLpns(g) && st0.bufL2p[lpn] != UNUSED
    requires st1 == st0.(bufValid := st0.bufValid[st0.bufL2p[lpn] :=
                                       RowFilled(st0.bufValid[st0.bufL2p[lpn]], 0, SECTORS_PER_PAGE, UNUSED)])
    requires NandWritten(g, st1, st2, lpn, data)
    requires lpn < |st2.bufL2p| && st' == st2.(bufL2p := st2.bufL2p[lpn := UNUSED])
    ensures NandWritten(g, Dropped(st0, lpn), st', lpn, data)
    ensures st'.bufValid == Dropped(st0, lpn).bufValid && st'.bufL2p == Dropped(st0, lpn).bufL2p
  {
    var d := Dropped(st0, lpn);
    forall l | 0 <= l < NLpns(g)
      ensures NandPage(g, st', l) == if l == lpn then Some(data) else NandPage(g, d, l)
    {
      assert NandPage(g, st', l) == NandPage(g, st2, l);
      assert NandPage(g, d, l) == NandPage(g, st1, l);
    }
  }
}
