/** The whole FTL state of HW3/ftl.c as a value: every bank plus the sector-granular write buffer, and the flat
    array of sectors the host sees through both. */
module FtlState {
  import opened Common
  import opened NandFlash
  import opened FtlBank

  const ERASED: u32 := 0xFFFF_FFFF
  const UNUSED := -1

  // ---- logical page numbers --------------------------------------------------------------------------

  function NLpns(g: Geometry): nat
    requires g.Valid()
  {
    g.Lpns() * g.banks
  }

  function BankOf(g: Geometry, lpn: nat): nat
    requires g.Valid()
  {
    lpn % g.banks
  }

  function HalfOf(g: Geometry, lpn: nat): nat
    requires g.Valid()
  {
    lpn / g.banks
  }

  function LpnOf(g: Geometry, bank: nat, half: nat): nat {
    half * g.banks + bank
  }

  lemma LpnSplit(g: Geometry, lpn: nat)
    requires g.Valid()
    ensures BankOf(g, lpn) < g.banks && LpnOf(g, BankOf(g, lpn), HalfOf(g, lpn)) == lpn
    ensures lpn < NLpns(g) <==> HalfOf(g, lpn) < g.Lpns()
  {
    var h, n := HalfOf(g, lpn), g.Lpns();
    assert (h + 1) * g.banks == h * g.banks + g.banks;
    if h < n {
      MulMono(h + 1, n, g.banks);
    } else {
      MulMono(n, h, g.banks);
    }
  }

  lemma LpnJoin(g: Geometry, bank: nat, half: nat)
    requires g.Valid() && bank < g.banks
    ensures BankOf(g, LpnOf(g, bank, half)) == bank && HalfOf(g, LpnOf(g, bank, half)) == half
    ensures half < g.Lpns() <==> LpnOf(g, bank, half) < NLpns(g)
  {
    var lpn := LpnOf(g, bank, half);
    LpnSplit(g, lpn);
    RowMajorInjective(g.banks, HalfOf(g, lpn), BankOf(g, lpn), half, bank);
  }

  // ---- the state -------------------------------------------------------------------------------------

  type Row = r: seq<int> | |r| == SECTORS_PER_PAGE witness seq(SECTORS_PER_PAGE, _ => UNUSED)

  /** bufL2p is indexed by logical page; a row of bufValid holds, per sector, the logical page or UNUSED. */
  datatype State = State(banks: seq<Bank>, bufL2p: seq<int>, bufData: seq<Page>, bufValid: seq<Row>)

  ghost predicate BanksOk(g: Geometry, st: State) {
    && g.Valid()
    && |st.banks| == g.banks
    && (forall b :: 0 <= b < g.banks ==> BankOk(g, st.banks[b]))
  }

  ghost predicate BufShape(g: Geometry, st: State) {
    && g.Valid()
    && |st.bufL2p| == NLpns(g) && |st.bufData| == g.buffers && |st.bufValid| == g.buffers
    && (forall lpn :: 0 <= lpn < NLpns(g) ==> UNUSED <= st.bufL2p[lpn] < g.buffers)
  }

  predicate FreeRow(row: Row) {
    forall s :: 0 <= s < SECTORS_PER_PAGE ==> row[s] == UNUSED
  }

  /** Every used sector of the row belongs to this logical page. */
  ghost predicate RowOf(row: Row, lpn: int) {
    forall s :: 0 <= s < SECTORS_PER_PAGE ==> row[s] == UNUSED || row[s] == lpn
  }

  /** Buffer pages and buffered logical pages correspond one to one, and a buffered page is never empty. */
  ghost predicate BufOk(g: Geometry, st: State) {
    && BufShape(g, st)
    && (forall lpn :: 0 <= lpn < NLpns(g) && st.bufL2p[lpn] != UNUSED ==>
          RowOf(st.bufValid[st.bufL2p[lpn]], lpn) && !FreeRow(st.bufValid[st.bufL2p[lpn]]))
    && (forall b, s :: 0 <= b < g.buffers && 0 <= s < SECTORS_PER_PAGE && st.bufValid[b][s] != UNUSED ==>
          0 <= st.bufValid[b][s] < NLpns(g) && st.bufL2p[st.bufValid[b][s]] == b)
  }

  ghost predicate StateOk(g: Geometry, st: State) {
    BanksOk(g, st) && BufOk(g, st)
  }

  /** Two logical pages never share a buffer page. */
  lemma BufferedDistinct(g: Geometry, st: State, l1: nat, l2: nat)
    requires BufOk(g, st) && l1 < NLpns(g) && l2 < NLpns(g)
    ensures st.bufL2p[l1] != UNUSED && st.bufL2p[l1] == st.bufL2p[l2] ==> l1 == l2
  {
    if st.bufL2p[l1] != UNUSED && st.bufL2p[l1] == st.bufL2p[l2] {
      var row := st.bufValid[st.bufL2p[l1]];
      var s :| 0 <= s < SECTORS_PER_PAGE && row[s] != UNUSED;
      assert row[s] == l1 && row[s] == l2;
    }
  }

  // ---- what the host sees ----------------------------------------------------------------------------

  function NandPage(g: Geometry, st: State, lpn: nat): Option<Page>
    requires BanksOk(g, st) && lpn < NLpns(g)
  {
    LpnSplit(g, lpn);
    var k := st.banks[BankOf(g, lpn)];
    assert BankOk(g, k);
    assert k.l2p[HalfOf(g, lpn)] != UNMAPPED ==> Mapped(g, k, HalfOf(g, lpn));
    Stored(g, k, HalfOf(g, lpn))
  }

  function OnNand(p: Option<Page>, s: nat): u32
    requires s < SECTORS_PER_PAGE
  {
    if p == None then ERASED else p.value[s]
  }

  ghost predicate BufferedSector(g: Geometry, st: State, lpn: nat, s: nat)
    requires BufShape(g, st) && lpn < NLpns(g) && s < SECTORS_PER_PAGE
  {
    st.bufL2p[lpn] != UNUSED && st.bufValid[st.bufL2p[lpn]][s] != UNUSED
  }

  /** The buffer shadows the flash sector by sector. */
  ghost function Sector(g: Geometry, st: State, lpn: nat, s: nat): u32
    requires BanksOk(g, st) && BufShape(g, st) && lpn < NLpns(g) && s < SECTORS_PER_PAGE
  {
    if BufferedSector(g, st, lpn, s) then st.bufData[st.bufL2p[lpn]][s] else OnNand(NandPage(g, st, lpn), s)
  }

  function NSectors(g: Geometry): nat
    requires g.Valid()
  {
    NLpns(g) * SECTORS_PER_PAGE
  }

  ghost function View(g: Geometry, st: State): (v: seq<u32>)
    requires BanksOk(g, st) && BufShape(g, st)
    ensures |v| == NSectors(g)
  {
    seq(NSectors(g), i requires 0 <= i < NSectors(g) => Sector(g, st, i / SECTORS_PER_PAGE, i % SECTORS_PER_PAGE))
  }

  // ---- the opened device -----------------------------------------------------------------------------

  function OpenedState(g: Geometry): State
    requires g.Valid()
  {
    State(seq(g.banks, _ => OpenedBank(g)), seq(NLpns(g), _ => UNUSED),
          seq(g.buffers, _ => seq(SECTORS_PER_PAGE, _ => 0)), seq(g.buffers, _ => seq(SECTORS_PER_PAGE, _ => UNUSED)))
  }

  lemma OpenedStateOk(g: Geometry)
    requires g.Valid()
    ensures StateOk(g, OpenedState(g))
    ensures forall i :: 0 <= i < NSectors(g) ==> View(g, OpenedState(g))[i] == 0xFFFF_FFFF
  {
    OpenedBankOk(g);
    forall lpn | 0 <= lpn < NLpns(g)
      ensures NandPage(g, OpenedState(g), lpn) == None
    {
      LpnSplit(g, lpn);
    }
  }

  lemma OpenedStateEntries(g: Geometry)
    requires g.Valid()
    ensures var st := OpenedState(g);
            && |st.banks| == g.banks && |st.bufL2p| == NLpns(g) && |st.bufData| == g.buffers
            && |st.bufValid| == g.buffers
            && (forall b :: 0 <= b < g.banks ==> st.banks[b] == OpenedBank(g))
            && (forall l :: 0 <= l < NLpns(g) ==> st.bufL2p[l] == UNUSED)
            && (forall b, s :: 0 <= b < g.buffers && 0 <= s < SECTORS_PER_PAGE ==>
                  st.bufData[b][s] == 0 && st.bufValid[b][s] == UNUSED)
    ensures var k := OpenedBank(g);
            && |k.l2p| == g.Lpns() && |k.valid| == g.Ppns() && |k.flash| == g.blks
            && (forall l :: 0 <= l < g.Lpns() ==> k.l2p[l] == UNMAPPED)
            && (forall p :: 0 <= p < g.Ppns() ==> k.valid[p])
            && |EmptyFlash(g.banks, g.blks)| == g.banks
            && (forall b :: 0 <= b < g.banks ==> EmptyFlash(g.banks, g.blks)[b] == k.flash)
            && k.next == 0 && k.trigger == PpnOf(g, g.blks - 1, 0) && k.free == g.blks - 1
  {
  }

  // ---- effect of one page write on the flash side --------------------------------------------------------

  /** Bank b now stores data for one logical page and everything else as before. */
  ghost predicate StoresOnly(g: Geometry, k: Bank, k': Bank, half: nat, data: Page)
    requires BankOk(g, k) && BankOk(g, k')
  {
    forall m :: 0 <= m < g.Lpns() ==> Stored(g, k', m) == if m == half then Some(data) else Stored(g, k, m)
  }

  /** Only the flash side changed, and only in that lpn now stores data. */
  ghost predicate NandWritten(g: Geometry, st: State, st': State, lpn: nat, data: Page) {
    && BanksOk(g, st) && BanksOk(g, st') && lpn < NLpns(g)
    && st' == st.(banks := st'.banks)
    && forall l :: 0 <= l < NLpns(g) ==> NandPage(g, st', l) == if l == lpn then Some(data) else NandPage(g, st, l)
  }

  lemma PageStored(g: Geometry, st: State, bank: nat, half: nat, k': Bank, data: Page, lpn: nat)
    requires BanksOk(g, st) && bank < g.banks && half < g.Lpns()
    requires BankOk(g, k') && StoresOnly(g, st.banks[bank], k', half, data)
    requires lpn < NLpns(g)
    ensures BanksOk(g, st.(banks := st.banks[bank := k']))
    ensures NandPage(g, st.(banks := st.banks[bank := k']), lpn)
            == if lpn == LpnOf(g, bank, half) then Some(data) else NandPage(g, st, lpn)
  {
    LpnJoin(g, bank, half);
    LpnSplit(g, lpn);
  }

  lemma PageWritten(g: Geometry, st: State, bank: nat, half: nat, k': Bank, data: Page)
    requires BanksOk(g, st) && bank < g.banks && half < g.Lpns()
    requires BankOk(g, k') && StoresOnly(g, st.banks[bank], k', half, data)
    ensures LpnOf(g, bank, half) < NLpns(g)
    ensures NandWritten(g, st, st.(banks := st.banks[bank := k']), LpnOf(g, bank, half), data)
  {
    LpnJoin(g, bank, half);
    hide LpnOf, StoresOnly;
    forall lpn | 0 <= lpn < NLpns(g)
      ensures NandPage(g, st.(banks := st.banks[bank := k']), lpn)
              == if lpn == LpnOf(g, bank, half) then Some(data) else NandPage(g, st, lpn)
    {
      PageStored(g, st, bank, half, k', data, lpn);
    }
  }
}
