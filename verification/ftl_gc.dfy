/** Greedy garbage collection of one bank: why a victim with a reclaimable page always exists, and why the
    page copies and the erase keep the bank's invariant and everything the bank stores. */
module FtlGc {
  import opened NandFlash
  import opened FtlBank

  // ---- choosing the victim ---------------------------------------------------------------------------

  /** How many of the first n pages of a block are marked invalid. */
  function InvalidCount(g: Geometry, valid: seq<bool>, blk: nat, n: nat): (c: nat)
    requires g.Valid() && |valid| == g.Ppns() && blk < g.blks && n <= g.pages
    ensures c <= n
    ensures c == 0 <==> forall off :: 0 <= off < n ==> BlockPageValid(g, valid, blk, off)
  {
    if n == 0 then 0
    else InvalidCount(g, valid, blk, n - 1) + (if BlockPageValid(g, valid, blk, n - 1) then 0 else 1)
  }

  predicate BlockPageValid(g: Geometry, valid: seq<bool>, blk: nat, off: nat)
    requires g.Valid() && |valid| == g.Ppns() && blk < g.blks && off < g.pages
  {
    Join(g, blk, off);
    valid[PpnOf(g, blk, off)]
  }

  /** The greedy choice: most invalid pages, lowest block number among equals. */
  ghost predicate GreedyVictim(g: Geometry, valid: seq<bool>, v: nat)
    requires g.Valid() && |valid| == g.Ppns()
  {
    && v < g.blks
    && forall b {:trigger InvalidCount(g, valid, b, g.pages)} :: 0 <= b < g.blks ==>
         && InvalidCount(g, valid, b, g.pages) <= InvalidCount(g, valid, v, g.pages)
         && (b < v ==> InvalidCount(g, valid, b, g.pages) < InvalidCount(g, valid, v, g.pages))
  }

  lemma {:induction false} Pigeonhole(s: seq<nat>, m: nat)
    requires forall i :: 0 <= i < |s| ==> s[i] < m
    requires forall i, j :: 0 <= i < j < |s| ==> s[i] != s[j]
    ensures |s| <= m
  {
    assert |s| > 0 ==> s[0] < m;
    if m > 0 {
      if i :| 0 <= i < |s| && s[i] == m - 1 {
        Pigeonhole(s[..i] + s[i + 1..], m - 1);
      } else {
        Pigeonhole(s, m - 1);
      }
    }
  }

  /** The i-th page that is not in the spare block. */
  function NonSparePpn(g: Geometry, free: nat, i: nat): nat {
    if i < free * g.pages then i else i + g.pages
  }

  lemma NonSpareRange(g: Geometry, free: nat, i: nat)
    requires g.Valid() && free < g.blks && i < (g.blks - 1) * g.pages
    ensures NonSparePpn(g, free, i) < g.Ppns() && BlkOf(g, NonSparePpn(g, free, i)) != free
  {
    hide BlkOf;
    var ppn := NonSparePpn(g, free, i);
    MulSucc(g.blks - 1, g.pages);
    MulSucc(free, g.pages);
    if i < free * g.pages {
      MulMono(free, g.blks, g.pages);
      BlkBelow(g, ppn, free);
    } else {
      BlkBelow(g, ppn, free + 1);
    }
  }

  /** With the frontier used up, a valid page outside the spare block belongs to some logical page. */
  lemma NonSpareOwner(g: Geometry, k: Bank, i: nat) returns (l: nat)
    requires BankOk(g, k) && k.next == k.trigger
    requires i < (g.blks - 1) * g.pages
    requires forall ppn :: 0 <= ppn < g.Ppns() ==> k.valid[ppn]
    ensures l < g.Lpns() && k.l2p[l] == NonSparePpn(g, k.free, i)
  {
    var ppn := NonSparePpn(g, k.free, i);
    NonSpareRange(g, k.free, i);
    assert Written(g, k, ppn);
    assert Owned(g, k, ppn);
    l := CellAt(g, k, ppn).spare;
  }

  /** If the frontier is used up and no page were invalid, the user pages would fill every block but one. */
  lemma AllValidFillsBank(g: Geometry, k: Bank, n: nat)
    requires BankOk(g, k) && k.next == k.trigger && n == (g.blks - 1) * g.pages
    requires forall ppn :: 0 <= ppn < g.Ppns() ==> k.valid[ppn]
    ensures n <= g.Lpns()
  {
    var owners: seq<nat> := [];
    for i := 0 to n
      invariant |owners| == i
      invariant forall j :: 0 <= j < i ==> owners[j] < g.Lpns() && k.l2p[owners[j]] == NonSparePpn(g, k.free, j)
    {
      var l := NonSpareOwner(g, k, i);
      owners := owners + [l];
    }
    forall i, j | 0 <= i < j < n
      ensures owners[i] != owners[j]
    {
      assert NonSparePpn(g, k.free, i) != NonSparePpn(g, k.free, j);
    }
    Pigeonhole(owners, g.Lpns());
  }

  lemma SomePageInvalid(g: Geometry, k: Bank) returns (ppn: nat)
    requires BankOk(g, k) && k.next == k.trigger && g.Lpns() > 0
    ensures ppn < g.Ppns() && !k.valid[ppn]
  {
    g.UserPagesFit();
    if forall p :: 0 <= p < g.Ppns() ==> k.valid[p] {
      AllValidFillsBank(g, k, (g.blks - 1) * g.pages);
      assert false;
    }
    ppn :| 0 <= ppn < g.Ppns() && !k.valid[ppn];
  }

  /** Greedy always reclaims something: the victim is not the spare block and holds an invalid page. */
  lemma VictimHasInvalidPage(g: Geometry, k: Bank, v: nat)
    requires BankOk(g, k) && k.next == k.trigger && g.Lpns() > 0
    requires GreedyVictim(g, k.valid, v)
    ensures v != k.free && InvalidCount(g, k.valid, v, g.pages) > 0
  {
    var ppn := SomePageInvalid(g, k);
    Split(g, ppn);
    assert !BlockPageValid(g, k.valid, BlkOf(g, ppn), OffOf(g, ppn));
    assert InvalidCount(g, k.valid, BlkOf(g, ppn), g.pages) > 0;
    SpareHasNoInvalid(g, k);
  }

  lemma SpareHasNoInvalid(g: Geometry, k: Bank)
    requires BankOk(g, k)
    ensures InvalidCount(g, k.valid, k.free, g.pages) == 0
  {
    forall off | 0 <= off < g.pages
      ensures BlockPageValid(g, k.valid, k.free, off)
    {
      Join(g, k.free, off);
      assert !Written(g, k, PpnOf(g, k.free, off));
    }
  }

  // ---- moving the live pages -------------------------------------------------------------------------

  /** Logical page l was stored among the first i pages of the victim. */
  ghost predicate Moved(g: Geometry, k0: Bank, victim: nat, i: nat, l: nat)
    requires Shaped(g, k0) && l < g.Lpns()
  {
    k0.l2p[l] >= 0 && BlkOf(g, k0.l2p[l]) == victim && OffOf(g, k0.l2p[l]) < i
  }

  /** The page at ppn is one of the first imm pages of the spare block. */
  ghost predicate InSpare(g: Geometry, k: Bank, imm: nat, ppn: int)
    requires Shaped(g, k)
  {
    ppn >= 0 && BlkOf(g, ppn) == k.free && OffOf(g, ppn) < imm
  }

  ghost predicate CopyMap(g: Geometry, k0: Bank, k: Bank, victim: nat, i: nat, imm: nat)
    requires BankOk(g, k0) && Shaped(g, k) && k.free == k0.free && |k.flash[k.free]| == imm
  {
    && (forall l {:trigger k.l2p[l]} :: 0 <= l < g.Lpns() ==>
          if Moved(g, k0, victim, i, l) then
            && InSpare(g, k, imm, k.l2p[l])
            && Written(g, k0, k0.l2p[l])
            && k.flash[k.free][OffOf(g, k.l2p[l])] == CellAt(g, k0, k0.l2p[l])
          else k.l2p[l] == k0.l2p[l])
    && (forall j :: 0 <= j < imm ==>
          && k.flash[k.free][j].spare < g.Lpns()
          && k.l2p[k.flash[k.free][j].spare] == PpnOf(g, k.free, j))
  }

  /** State of the copy loop after i victim pages were looked at and imm of them moved to the spare block. */
  ghost predicate Copying(g: Geometry, k0: Bank, k: Bank, victim: nat, i: nat, imm: nat) {
    && BankOk(g, k0) && k0.next == k0.trigger
    && victim < g.blks && victim != k0.free && i <= g.pages
    && Shaped(g, k)
    && k == k0.(l2p := k.l2p, flash := k.flash)
    && |k.flash[k.free]| == imm
    && (forall b :: 0 <= b < g.blks && b != k.free ==> k.flash[b] == k0.flash[b])
    && imm + InvalidCount(g, k0.valid, victim, i) == i
    && CopyMap(g, k0, k, victim, i, imm)
  }

  ghost predicate CopyingShape(g: Geometry, k0: Bank, k: Bank, victim: nat, imm: nat) {
    && g.Valid() && |k.l2p| == g.Lpns() && |k.flash| == g.blks && victim < g.blks && k.free < g.blks && victim != k.free
    && |k0.flash| == g.blks && k.flash[victim] == k0.flash[victim]
    && k.valid == k0.valid && k.free == k0.free && |k.flash[k.free]| == imm
  }

  lemma CopyingHasShape(g: Geometry, k0: Bank, k: Bank, victim: nat, i: nat, imm: nat)
    requires Copying(g, k0, k, victim, i, imm)
    ensures CopyingShape(g, k0, k, victim, imm) && g.Valid() && |k.valid| == g.Ppns() && i <= g.pages
  {
  }

  lemma CopyStart(g: Geometry, k0: Bank, victim: nat)
    requires BankOk(g, k0) && k0.next == k0.trigger && victim < g.blks && victim != k0.free
    ensures Copying(g, k0, k0, victim, 0, 0)
  {
  }

  /** With the frontier used up every block but the spare one is fully programmed. */
  lemma VictimIsFull(g: Geometry, k: Bank, b: nat)
    requires BankOk(g, k) && k.next == k.trigger && b < g.blks && b != k.free
    ensures |k.flash[b]| == g.pages
  {
    Join(g, b, g.pages - 1);
    assert Written(g, k, PpnOf(g, b, g.pages - 1));
  }

  /** An invalid victim page is skipped. */
  lemma CopySkip(g: Geometry, k0: Bank, k: Bank, victim: nat, i: nat, imm: nat)
    requires Copying(g, k0, k, victim, i, imm) && i < g.pages
    requires !BlockPageValid(g, k0.valid, victim, i)
    ensures Copying(g, k0, k, victim, i + 1, imm)
  {
    forall l | 0 <= l < g.Lpns()
      ensures Moved(g, k0, victim, i + 1, l) == Moved(g, k0, victim, i, l)
    {
      if k0.l2p[l] != UNMAPPED {
        assert Mapped(g, k0, l);
        Split(g, k0.l2p[l]);
      }
    }
  }

  function Copied(g: Geometry, k: Bank, c: Cell, imm: nat): Bank
    requires k.free < |k.flash| && c.spare < |k.l2p|
  {
    k.(l2p := k.l2p[c.spare := PpnOf(g, k.free, imm)],
       flash := k.flash[k.free := k.flash[k.free] + [c]])
  }

  /** A valid victim page names its owner in the spare area. */
  lemma LiveOwner(g: Geometry, k0: Bank, victim: nat, i: nat)
    requires BankOk(g, k0) && k0.next == k0.trigger && victim < g.blks && victim != k0.free && i < g.pages
    requires BlockPageValid(g, k0.valid, victim, i)
    ensures |k0.flash[victim]| == g.pages
    ensures k0.flash[victim][i].spare < g.Lpns()
    ensures k0.l2p[k0.flash[victim][i].spare] == PpnOf(g, victim, i)
    ensures PpnOf(g, victim, i) < g.Ppns()
  {
    VictimIsFull(g, k0, victim);
    Join(g, victim, i);
    assert Written(g, k0, PpnOf(g, victim, i));
    assert Owned(g, k0, PpnOf(g, victim, i));
  }

  /** A valid victim page is copied behind the pages already in the spare block. */
  lemma CopyMove(g: Geometry, k0: Bank, k: Bank, victim: nat, i: nat, imm: nat)
    requires Copying(g, k0, k, victim, i, imm) && i < g.pages
    requires BlockPageValid(g, k0.valid, victim, i)
    ensures CopyingShape(g, k0, k, victim, imm)
    ensures |k.flash[victim]| == g.pages && k.flash[victim][i].spare < g.Lpns() && imm < g.pages
    ensures Copying(g, k0, Copied(g, k, k.flash[victim][i], imm), victim, i + 1, imm + 1)
  {
    LiveOwner(g, k0, victim, i);
    var c := k.flash[victim][i];
    var k' := Copied(g, k, c, imm);
    Join(g, k.free, imm);
    Join(g, victim, i);
    forall l | 0 <= l < g.Lpns()
      ensures Moved(g, k0, victim, i + 1, l) <==> Moved(g, k0, victim, i, l) || l == c.spare
      ensures k0.l2p[l] != UNMAPPED ==> Written(g, k0, k0.l2p[l])
    {
      if k0.l2p[l] != UNMAPPED {
        assert Mapped(g, k0, l);
        Split(g, k0.l2p[l]);
        if OffOf(g, k0.l2p[l]) == i && BlkOf(g, k0.l2p[l]) == victim {
          MapInjective(g, k0, l, c.spare);
        }
      }
    }
    assert !Moved(g, k0, victim, i, c.spare);
    forall j | 0 <= j < imm
      ensures k.flash[k.free][j].spare != c.spare
    {
      assert k.l2p[c.spare] == PpnOf(g, victim, i);
      Join(g, k.free, j);
    }
  }

  // ---- erasing the victim ----------------------------------------------------------------------------

  function Revalidated(g: Geometry, valid: seq<bool>, victim: nat): seq<bool>
    requires g.Valid()
  {
    seq(|valid|, p requires 0 <= p < |valid| => BlkOf(g, p) == victim || valid[p])
  }

  /** The bank when the collection ends: the spare block is the new frontier, the victim the new spare. */
  function Collected(g: Geometry, k: Bank, victim: nat, imm: nat): Bank
    requires g.Valid() && victim < |k.flash|
  {
    k.(valid := Revalidated(g, k.valid, victim), next := PpnOf(g, k.free, imm),
       trigger := PpnOf(g, k.free, g.pages), free := victim, flash := k.flash[victim := []])
  }

  lemma FrontierIsRestOfSpare(g: Geometry, free: nat, imm: nat, ppn: nat)
    requires g.Valid() && imm <= g.pages
    ensures PpnOf(g, free, imm) <= ppn < PpnOf(g, free, g.pages)
            <==> BlkOf(g, ppn) == free && imm <= OffOf(g, ppn)
  {
    Split(g, ppn);
    assert (free + 1) * g.pages == free * g.pages + g.pages;
    BlkBelow(g, ppn, free + 1);
    BlkBelow(g, ppn, free);
  }

  lemma SpareBounds(g: Geometry, free: nat, imm: nat)
    requires g.Valid() && free < g.blks && imm <= g.pages
    ensures PpnOf(g, free, imm) <= PpnOf(g, free, g.pages) <= g.Ppns()
  {
    MulMono(free + 1, g.blks, g.pages);
    assert (free + 1) * g.pages == free * g.pages + g.pages;
  }

  lemma CollectedShaped(g: Geometry, k0: Bank, k: Bank, victim: nat, imm: nat)
    requires Copying(g, k0, k, victim, g.pages, imm)
    ensures Shaped(g, Collected(g, k, victim, imm))
  {
  }

  lemma CollectedWritten(g: Geometry, k0: Bank, k: Bank, victim: nat, imm: nat, ppn: nat)
    requires Copying(g, k0, k, victim, g.pages, imm) && ppn < g.Ppns()
    requires Shaped(g, Collected(g, k, victim, imm))
    ensures Written(g, Collected(g, k, victim, imm), ppn) <==>
            BlkOf(g, ppn) != victim && (BlkOf(g, ppn) == k.free ==> OffOf(g, ppn) < imm)
  {
    Split(g, ppn);
    if BlkOf(g, ppn) != k.free && BlkOf(g, ppn) != victim {
      VictimIsFull(g, k0, BlkOf(g, ppn));
    }
  }

  lemma CollectedFrontier(g: Geometry, k0: Bank, k: Bank, victim: nat, imm: nat)
    requires Copying(g, k0, k, victim, g.pages, imm)
    requires Shaped(g, Collected(g, k, victim, imm))
    ensures FrontierOk(g, Collected(g, k, victim, imm))
  {
    var k' := Collected(g, k, victim, imm);
    SpareBounds(g, k.free, imm);
    forall ppn | 0 <= ppn < g.Ppns()
      ensures Written(g, k', ppn) <==> !InFrontier(k', ppn) && BlkOf(g, ppn) != k'.free
    {
      FrontierIsRestOfSpare(g, k.free, imm, ppn);
      CollectedWritten(g, k0, k, victim, imm, ppn);
    }
    forall ppn | InFrontier(k', ppn)
      ensures BlkOf(g, ppn) != k'.free
    {
      FrontierIsRestOfSpare(g, k.free, imm, ppn);
    }
  }

  lemma CollectedEntry(g: Geometry, k0: Bank, k: Bank, victim: nat, imm: nat, l: nat)
    requires Copying(g, k0, k, victim, g.pages, imm) && l < g.Lpns()
    requires Shaped(g, Collected(g, k, victim, imm))
    ensures var k' := Collected(g, k, victim, imm);
            && (k0.l2p[l] == UNMAPPED ==> k'.l2p[l] == UNMAPPED)
            && (k0.l2p[l] != UNMAPPED ==>
                  && Mapped(g, k0, l) && k'.l2p[l] != UNMAPPED && Mapped(g, k', l)
                  && CellAt(g, k', k'.l2p[l]) == CellAt(g, k0, k0.l2p[l]))
  {
    var k' := Collected(g, k, victim, imm);
    if k0.l2p[l] != UNMAPPED {
      assert Mapped(g, k0, l);
      Split(g, k0.l2p[l]);
      if Moved(g, k0, victim, g.pages, l) {
        Split(g, k.l2p[l]);
        assert !Written(g, k0, k.l2p[l]);
      }
    }
  }

  lemma CollectedOwner(g: Geometry, k0: Bank, k: Bank, victim: nat, imm: nat, ppn: int)
    requires Copying(g, k0, k, victim, g.pages, imm)
    requires Shaped(g, Collected(g, k, victim, imm)) && Written(g, Collected(g, k, victim, imm), ppn)
    requires Collected(g, k, victim, imm).valid[ppn]
    ensures Owned(g, Collected(g, k, victim, imm), ppn)
  {
    Split(g, ppn);
    if BlkOf(g, ppn) != k.free {
      assert Written(g, k0, ppn);
      assert Owned(g, k0, ppn);
      var l := CellAt(g, k0, ppn).spare;
      assert !Moved(g, k0, victim, g.pages, l);
    }
  }

  /** Garbage collection keeps the invariant and every stored page, and leaves room for the pending write. */
  lemma CollectOk(g: Geometry, k0: Bank, k: Bank, victim: nat, imm: nat)
    requires Copying(g, k0, k, victim, g.pages, imm)
    requires InvalidCount(g, k0.valid, victim, g.pages) > 0
    ensures BankOk(g, Collected(g, k, victim, imm))
    ensures SameStored(g, k0, Collected(g, k, victim, imm))
    ensures Collected(g, k, victim, imm).next < Collected(g, k, victim, imm).trigger
  {
    var k' := Collected(g, k, victim, imm);
    CollectedShaped(g, k0, k, victim, imm);
    CollectedFrontier(g, k0, k, victim, imm);
    forall l | 0 <= l < g.Lpns()
      ensures k'.l2p[l] != UNMAPPED ==> Mapped(g, k', l)
    {
      CollectedEntry(g, k0, k, victim, imm, l);
    }
    forall ppn | Written(g, k', ppn) && k'.valid[ppn]
      ensures Owned(g, k', ppn)
    {
      CollectedOwner(g, k0, k, victim, imm, ppn);
    }
    forall ppn | 0 <= ppn < g.Ppns() && !Written(g, k', ppn)
      ensures k'.valid[ppn]
    {
      FrontierIsRestOfSpare(g, k.free, imm, ppn);
      if BlkOf(g, ppn) != victim {
        assert !Written(g, k0, ppn);
      }
    }
    forall l | 0 <= l < g.Lpns()
      ensures Stored(g, k', l) == Stored(g, k0, l)
    {
      CollectedEntry(g, k0, k, victim, imm, l);
    }
  }
}
