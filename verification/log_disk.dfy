/** The disk of the xv6 log (log.c) as a value: the header block, recovery, the sequence of disk images a commit goes
    through, and crash atomicity: wherever a commit or a recovery is cut off, recovering yields the whole old or the
    whole new contents. */
module LogDisk {

  const MAXOPBLOCKS: nat := 10
  const LOGSIZE: nat := 30
  const WORDS: nat := 128  // BSIZE / sizeof(uint)

  type Word = x: int | 0 <= x < 0x1_0000_0000
  type Block = b: seq<Word> | |b| == WORDS witness seq(WORDS, _ => 0)
  type Disk = seq<Block>

  /** Where the log lies: block start holds the header, the size - 1 blocks behind it the logged copies. */
  datatype Layout = Layout(start: nat, size: nat, nblocks: nat) {
    predicate Valid() {
      size >= 1 && start + size <= nblocks && nblocks < 0x1_0000_0000
    }

    predicate Home(b: int) {
      0 <= b < nblocks && !(start <= b < start + size)
    }

    /** A list of logged block numbers as log_write builds it. */
    ghost predicate LogList(lh: seq<nat>) {
      && |lh| <= LOGSIZE && |lh| < size
      && (forall i :: 0 <= i < |lh| ==> Home(lh[i]))
      && (forall i, j :: 0 <= i < j < |lh| ==> lh[i] != lh[j])
    }
  }

  // ---- the header block ------------------------------------------------------------------------------

  /** write_head stores the count and the block numbers and leaves the rest of the block alone. */
  function EncodeHead(old_head: Block, lh: seq<nat>): Block
    requires |lh| <= LOGSIZE && forall i :: 0 <= i < |lh| ==> lh[i] < 0x1_0000_0000
  {
    seq(WORDS, w requires 0 <= w < WORDS =>
      if w == 0 then |lh| as Word else if w <= |lh| then lh[w - 1] as Word else old_head[w])
  }

  /** read_head. */
  function DecodeHead(head: Block): seq<nat>
    requires head[0] <= LOGSIZE
  {
    seq(head[0], i requires 0 <= i < head[0] => head[i + 1] as nat)
  }

  lemma HeadRoundTrip(old_head: Block, lh: seq<nat>)
    requires |lh| <= LOGSIZE && forall i :: 0 <= i < |lh| ==> lh[i] < 0x1_0000_0000
    ensures EncodeHead(old_head, lh)[0] <= LOGSIZE && DecodeHead(EncodeHead(old_head, lh)) == lh
  {
  }

  ghost predicate HeadOk(L: Layout, d: Disk) {
    L.Valid() && |d| == L.nblocks && d[L.start][0] <= LOGSIZE && L.LogList(DecodeHead(d[L.start]))
  }

  function WithHead(L: Layout, d: Disk, lh: seq<nat>): Disk
    requires L.Valid() && |d| == L.nblocks
    requires |lh| <= LOGSIZE && forall i :: 0 <= i < |lh| ==> lh[i] < 0x1_0000_0000
  {
    d[L.start := EncodeHead(d[L.start], lh)]
  }

  /** Agreement on every block outside the log. */
  ghost predicate SameHome(L: Layout, d: Disk, e: Disk) {
    |d| == |e| && forall b {:trigger d[b]} {:trigger e[b]} :: 0 <= b < |d| && L.Home(b) ==> d[b] == e[b]
  }

  // ---- recovery --------------------------------------------------------------------------------------

  /** install_trans after k iterations. */
  function Installed(L: Layout, d: Disk, lh: seq<nat>, k: nat): (e: Disk)
    requires L.Valid() && |d| == L.nblocks && k <= |lh| < L.size
    requires forall i :: 0 <= i < |lh| ==> lh[i] < L.nblocks
    ensures |e| == |d|
  {
    if k == 0 then d else Installed(L, d, lh, k - 1)[lh[k - 1] := d[L.start + k]]
  }

  /** A whole uninterrupted recover_from_log. */
  ghost function Recover(L: Layout, d: Disk): Disk
    requires HeadOk(L, d)
  {
    var lh := DecodeHead(d[L.start]);
    WithHead(L, Installed(L, d, lh, |lh|), [])
  }

  lemma InstalledStep(L: Layout, d: Disk, lh: seq<nat>, k: nat)
    requires L.Valid() && |d| == L.nblocks && k < |lh| < L.size
    requires forall i :: 0 <= i < |lh| ==> lh[i] < L.nblocks
    ensures Installed(L, d, lh, k + 1) == Installed(L, d, lh, k)[lh[k] := d[L.start + k + 1]]
  {
  }

  /** What installing does: logged blocks take their logged copy, all others stay. */
  lemma {:induction false} InstalledBlocks(L: Layout, d: Disk, lh: seq<nat>, k: nat)
    requires L.Valid() && |d| == L.nblocks && k <= |lh| && L.LogList(lh)
    ensures forall i :: 0 <= i < k ==> Installed(L, d, lh, k)[lh[i]] == d[L.start + i + 1]
    ensures forall b {:trigger Installed(L, d, lh, k)[b]} :: 0 <= b < |d| && b !in lh[..k] ==>
              Installed(L, d, lh, k)[b] == d[b]
    ensures forall b {:trigger Installed(L, d, lh, k)[b]} :: L.start <= b < L.start + L.size ==>
              Installed(L, d, lh, k)[b] == d[b]
  {
    if k > 0 {
      InstalledBlocks(L, d, lh, k - 1);
      assert lh[..k] == lh[..k - 1] + [lh[k - 1]];
    }
  }

  lemma LogBlockStays(L: Layout, d: Disk, lh: seq<nat>, k: nat, b: nat)
    requires L.Valid() && |d| == L.nblocks && k <= |lh| && L.LogList(lh)
    requires L.start <= b < L.start + L.size
    ensures Installed(L, d, lh, k)[b] == d[b]
  {
    InstalledBlocks(L, d, lh, k);
  }

  /** Recovery in terms of blocks. */
  lemma RecoverBlocks(L: Layout, d: Disk)
    requires HeadOk(L, d)
    ensures |Recover(L, d)| == |d|
    ensures var lh := DecodeHead(d[L.start]);
            && (forall i :: 0 <= i < |lh| ==> Recover(L, d)[lh[i]] == d[L.start + i + 1])
            && (forall b {:trigger Recover(L, d)[b]} :: L.Home(b) && b !in lh ==> Recover(L, d)[b] == d[b])
  {
    var lh := DecodeHead(d[L.start]);
    InstalledBlocks(L, d, lh, |lh|);
    assert lh[..|lh|] == lh;
  }

  /** The disk images recover_from_log writes, one per bwrite. */
  ghost function RecoverTrace(L: Layout, d: Disk): (t: seq<Disk>)
    requires HeadOk(L, d)
    ensures |t| == |DecodeHead(d[L.start])| + 1
  {
    InstallTrace(L, d, DecodeHead(d[L.start])) + [Recover(L, d)]
  }

  /** The disk images install_trans writes. */
  ghost function InstallTrace(L: Layout, d: Disk, lh: seq<nat>): (t: seq<Disk>)
    requires L.Valid() && |d| == L.nblocks && |lh| < L.size
    requires forall i :: 0 <= i < |lh| ==> lh[i] < L.nblocks
    ensures |t| == |lh|
  {
    seq(|lh|, k requires 0 <= k < |lh| => Installed(L, d, lh, k + 1))
  }

  lemma InstallTraceStep(L: Layout, d: Disk, lh: seq<nat>, k: nat)
    requires L.Valid() && |d| == L.nblocks && k < |lh| < L.size
    requires forall i :: 0 <= i < |lh| ==> lh[i] < L.nblocks
    ensures InstallTrace(L, d, lh)[..k + 1] == InstallTrace(L, d, lh)[..k] + [Installed(L, d, lh, k + 1)]
  {
    hide Installed;
  }

  /** A partly installed transaction still recovers to the same contents. */
  lemma InstalledRecovers(L: Layout, d: Disk, k: nat)
    requires HeadOk(L, d) && k <= |DecodeHead(d[L.start])|
    ensures HeadOk(L, Installed(L, d, DecodeHead(d[L.start]), k))
    ensures SameHome(L, Recover(L, Installed(L, d, DecodeHead(d[L.start]), k)), Recover(L, d))
  {
    var lh := DecodeHead(d[L.start]);
    var e := Installed(L, d, lh, k);
    InstalledBlocks(L, d, lh, k);
    RecoverBlocks(L, d);
    RecoverBlocks(L, e);
    forall b | L.Home(b)
      ensures Recover(L, e)[b] == Recover(L, d)[b]
    {
      if b in lh {
        var i :| 0 <= i < |lh| && lh[i] == b;
        assert e[L.start + i + 1] == d[L.start + i + 1];
      }
    }
  }

  /** A finished recovery leaves an empty header and recovers to itself. */
  lemma RecoverIdempotent(L: Layout, d: Disk)
    requires HeadOk(L, d)
    ensures HeadOk(L, Recover(L, d)) && DecodeHead(Recover(L, d)[L.start]) == []
    ensures SameHome(L, Recover(L, Recover(L, d)), Recover(L, d))
  {
    var e := Recover(L, d);
    RecoverBlocks(L, d);
    HeadRoundTrip(Installed(L, d, DecodeHead(d[L.start]), |DecodeHead(d[L.start])|)[L.start], []);
    RecoverBlocks(L, e);
  }

  /** d' is what a crash during recovery of d leaves: nothing written yet, or any prefix of its writes. */
  ghost predicate RecoveryCrash(L: Layout, d: Disk, d': Disk)
    requires HeadOk(L, d)
  {
    d' == d || d' in RecoverTrace(L, d)
  }

  lemma RecoveryCrashHarmless(L: Layout, d: Disk, d': Disk)
    requires HeadOk(L, d) && RecoveryCrash(L, d, d')
    ensures HeadOk(L, d') && SameHome(L, Recover(L, d'), Recover(L, d))
  {
    var lh := DecodeHead(d[L.start]);
    if d' != d {
      var k :| 0 <= k < |RecoverTrace(L, d)| && RecoverTrace(L, d)[k] == d';
      if k < |lh| {
        InstalledRecovers(L, d, k + 1);
      } else {
        RecoverIdempotent(L, d);
      }
    }
  }

  /** Boot after boot, each recovery cut off by the next crash. */
  ghost predicate CrashChain(L: Layout, boots: seq<Disk>) {
    && |boots| > 0 && HeadOk(L, boots[0])
    && forall i :: 0 <= i < |boots| - 1 ==> HeadOk(L, boots[i]) && RecoveryCrash(L, boots[i], boots[i + 1])
  }

  /** However often recovery itself crashes, the recovery that finally completes gives the same contents. */
  lemma {:induction false} CrashChainHarmless(L: Layout, boots: seq<Disk>)
    requires CrashChain(L, boots)
    ensures HeadOk(L, boots[|boots| - 1])
    ensures SameHome(L, Recover(L, boots[|boots| - 1]), Recover(L, boots[0]))
  {
    var n := |boots| - 1;
    if n > 0 {
      CrashChainHarmless(L, boots[..n]);
      RecoveryCrashHarmless(L, boots[n - 1], boots[n]);
      assert |Recover(L, boots[n])| == |Recover(L, boots[n - 1])|;
    }
  }

  // ---- commit ----------------------------------------------------------------------------------------

  /** The cached contents of the logged blocks. */
  ghost predicate CacheFor(L: Layout, lh: seq<nat>, cache: map<nat, Block>) {
    L.LogList(lh) && forall b :: b in cache <==> b in lh
  }

  /** write_log after k iterations. */
  function Logged(L: Layout, d: Disk, lh: seq<nat>, cache: map<nat, Block>, k: nat): (e: Disk)
    requires L.Valid() && |d| == L.nblocks && k <= |lh| < L.size
    requires forall i :: 0 <= i < |lh| ==> lh[i] in cache
    ensures |e| == |d|
  {
    if k == 0 then d else Logged(L, d, lh, cache, k - 1)[L.start + k := cache[lh[k - 1]]]
  }

  lemma LoggedStep(L: Layout, d: Disk, lh: seq<nat>, cache: map<nat, Block>, k: nat)
    requires L.Valid() && |d| == L.nblocks && k < |lh| < L.size
    requires forall i :: 0 <= i < |lh| ==> lh[i] in cache
    ensures Logged(L, d, lh, cache, k + 1) == Logged(L, d, lh, cache, k)[L.start + k + 1 := cache[lh[k]]]
  {
  }

  lemma {:induction false} LoggedBlocks(L: Layout, d: Disk, lh: seq<nat>, cache: map<nat, Block>, k: nat)
    requires L.Valid() && |d| == L.nblocks && k <= |lh| < L.size
    requires forall i :: 0 <= i < |lh| ==> lh[i] in cache
    ensures forall b {:trigger Logged(L, d, lh, cache, k)[b]} :: 0 <= b < |d| ==>
              Logged(L, d, lh, cache, k)[b] == if L.start < b <= L.start + k then cache[lh[b - L.start - 1]] else d[b]
  {
    if k > 0 {
      LoggedBlocks(L, d, lh, cache, k - 1);
    }
  }

  /** The disk images of write_log. */
  ghost function LogTrace(L: Layout, d: Disk, lh: seq<nat>, cache: map<nat, Block>): (t: seq<Disk>)
    requires L.Valid() && |d| == L.nblocks && |lh| < L.size
    requires forall i :: 0 <= i < |lh| ==> lh[i] in cache
    ensures |t| == |lh|
  {
    seq(|lh|, k requires 0 <= k < |lh| => Logged(L, d, lh, cache, k + 1))
  }

  lemma LogTraceAt(L: Layout, d: Disk, lh: seq<nat>, cache: map<nat, Block>, p: nat)
    requires L.Valid() && |d| == L.nblocks && p < |lh| < L.size
    requires forall i :: 0 <= i < |lh| ==> lh[i] in cache
    ensures |LogTrace(L, d, lh, cache)| == |lh| && LogTrace(L, d, lh, cache)[p] == Logged(L, d, lh, cache, p + 1)
  {
    hide Logged;
  }

  lemma LogTraceStep(L: Layout, d: Disk, lh: seq<nat>, cache: map<nat, Block>, k: nat)
    requires L.Valid() && |d| == L.nblocks && k < |lh| < L.size
    requires forall i :: 0 <= i < |lh| ==> lh[i] in cache
    ensures LogTrace(L, d, lh, cache)[..k + 1] == LogTrace(L, d, lh, cache)[..k] + [Logged(L, d, lh, cache, k + 1)]
  {
    hide Logged;
  }

  /** The image whose header makes the transaction durable. */
  function Sealed(L: Layout, d: Disk, lh: seq<nat>, cache: map<nat, Block>): (e: Disk)
    requires L.Valid() && |d| == L.nblocks && |lh| < L.size && |lh| <= LOGSIZE
    requires forall i :: 0 <= i < |lh| ==> lh[i] in cache && lh[i] < L.nblocks
    ensures |e| == |d|
  {
    WithHead(L, Logged(L, d, lh, cache, |lh|), lh)
  }

  /** Every disk image commit goes through, one per bwrite. */
  ghost function CommitTrace(L: Layout, d: Disk, lh: seq<nat>, cache: map<nat, Block>): seq<Disk>
    requires L.Valid() && |d| == L.nblocks && CacheFor(L, lh, cache)
  {
    if lh == [] then []
    else
      var s := Sealed(L, d, lh, cache);
      LogTrace(L, d, lh, cache) + [s] + InstallTrace(L, s, lh) + [WithHead(L, Installed(L, s, lh, |lh|), [])]
  }

  lemma CommitUnfold(L: Layout, d: Disk, lh: seq<nat>, cache: map<nat, Block>)
    requires L.Valid() && |d| == L.nblocks && CacheFor(L, lh, cache)
    ensures lh == [] ==> CommitTrace(L, d, lh, cache) == []
    ensures lh != [] ==>
              var s := WithHead(L, Logged(L, d, lh, cache, |lh|), lh);
              CommitTrace(L, d, lh, cache) ==
                LogTrace(L, d, lh, cache) + [s] + InstallTrace(L, s, lh) + [WithHead(L, Installed(L, s, lh, |lh|), [])]
  {
    hide LogTrace, InstallTrace, WithHead, Logged, Installed;
  }

  /** The contents the transaction stands for. */
  function Overlay(d: Disk, cache: map<nat, Block>): (e: Disk)
    ensures |e| == |d|
  {
    seq(|d|, b requires 0 <= b < |d| => if b in cache then cache[b] else d[b])
  }

  ghost predicate Clean(L: Layout, d: Disk) {
    L.Valid() && |d| == L.nblocks && d[L.start][0] == 0
  }

  lemma CleanRecovers(L: Layout, d: Disk)
    requires Clean(L, d)
    ensures HeadOk(L, d) && SameHome(L, Recover(L, d), d)
  {
    RecoverBlocks(L, d);
  }

  /** Before the header is written a crash loses the whole transaction. */
  lemma LoggedRecovers(L: Layout, d: Disk, lh: seq<nat>, cache: map<nat, Block>, k: nat)
    requires Clean(L, d) && CacheFor(L, lh, cache) && k <= |lh|
    ensures HeadOk(L, Logged(L, d, lh, cache, k))
    ensures SameHome(L, Recover(L, Logged(L, d, lh, cache, k)), d)
  {
    LoggedBlocks(L, d, lh, cache, k);
    CleanRecovers(L, Logged(L, d, lh, cache, k));
  }

  lemma SealedBlocks(L: Layout, d: Disk, lh: seq<nat>, cache: map<nat, Block>)
    requires Clean(L, d) && CacheFor(L, lh, cache)
    ensures var s := Sealed(L, d, lh, cache);
            && HeadOk(L, s) && DecodeHead(s[L.start]) == lh
            && (forall i :: 0 <= i < |lh| ==> s[L.start + i + 1] == cache[lh[i]])
            && (forall b {:trigger s[b]} :: L.Home(b) ==> s[b] == d[b])
  {
    LoggedBlocks(L, d, lh, cache, |lh|);
    hide EncodeHead, DecodeHead, Logged;
    HeadRoundTrip(Logged(L, d, lh, cache, |lh|)[L.start], lh);
  }

  /** Once the header is written a crash keeps the whole transaction. */
  lemma SealedRecovers(L: Layout, d: Disk, lh: seq<nat>, cache: map<nat, Block>)
    requires Clean(L, d) && CacheFor(L, lh, cache)
    ensures HeadOk(L, Sealed(L, d, lh, cache)) && DecodeHead(Sealed(L, d, lh, cache)[L.start]) == lh
    ensures SameHome(L, Recover(L, Sealed(L, d, lh, cache)), Overlay(d, cache))
  {
    SealedBlocks(L, d, lh, cache);
    hide Sealed, Recover, DecodeHead;
    var s := Sealed(L, d, lh, cache);
    RecoverBlocks(L, s);
    forall b | L.Home(b)
      ensures Recover(L, s)[b] == Overlay(d, cache)[b]
    {
      if b in lh {
        var i :| 0 <= i < |lh| && lh[i] == b;
        assert Recover(L, s)[lh[i]] == s[L.start + i + 1];
      }
    }
  }

  lemma CommitParts(L: Layout, d: Disk, lh: seq<nat>, cache: map<nat, Block>)
    requires Clean(L, d) && CacheFor(L, lh, cache) && lh != []
    requires HeadOk(L, Sealed(L, d, lh, cache)) && DecodeHead(Sealed(L, d, lh, cache)[L.start]) == lh
    ensures var s := Sealed(L, d, lh, cache);
            CommitTrace(L, d, lh, cache) == LogTrace(L, d, lh, cache) + [s] + InstallTrace(L, s, lh) + [Recover(L, s)]
  {
    hide Sealed, LogTrace, InstallTrace, DecodeHead;
  }

  /** Which images a commit goes through: those of write_log, ... */
  lemma LoggingImage(L: Layout, d: Disk, lh: seq<nat>, cache: map<nat, Block>, p: nat)
    requires Clean(L, d) && CacheFor(L, lh, cache) && p < |lh|
    requires HeadOk(L, Sealed(L, d, lh, cache)) && DecodeHead(Sealed(L, d, lh, cache)[L.start]) == lh
    ensures p < |CommitTrace(L, d, lh, cache)| && CommitTrace(L, d, lh, cache)[p] == Logged(L, d, lh, cache, p + 1)
  {
    hide CommitTrace, Sealed, Logged, Recover, DecodeHead, HeadOk, InstallTrace, LogTrace;
    CommitParts(L, d, lh, cache);
    LogTraceAt(L, d, lh, cache, p);
    assert CommitTrace(L, d, lh, cache)[p] == LogTrace(L, d, lh, cache)[p];
  }

  /** ... from the header write on those of install_trans, ... */
  lemma InstallingImage(L: Layout, d: Disk, lh: seq<nat>, cache: map<nat, Block>, p: nat)
    requires Clean(L, d) && CacheFor(L, lh, cache) && lh != [] && |lh| <= p <= 2 * |lh|
    requires HeadOk(L, Sealed(L, d, lh, cache)) && DecodeHead(Sealed(L, d, lh, cache)[L.start]) == lh
    ensures p < |CommitTrace(L, d, lh, cache)|
    ensures CommitTrace(L, d, lh, cache)[p] == Installed(L, Sealed(L, d, lh, cache), lh, p - |lh|)
  {
    CommitParts(L, d, lh, cache);
    hide CommitTrace, Sealed, Logged, Recover, DecodeHead, HeadOk, Clean, LogTrace;
    var s, t := Sealed(L, d, lh, cache), CommitTrace(L, d, lh, cache);
    if p == |lh| {
      assert t[p] == s;
    } else {
      assert t[p] == InstallTrace(L, s, lh)[p - |lh| - 1];
    }
  }

  /** ... and at last the recovered one. */
  lemma LastImage(L: Layout, d: Disk, lh: seq<nat>, cache: map<nat, Block>)
    requires Clean(L, d) && CacheFor(L, lh, cache) && lh != []
    requires HeadOk(L, Sealed(L, d, lh, cache)) && DecodeHead(Sealed(L, d, lh, cache)[L.start]) == lh
    ensures |CommitTrace(L, d, lh, cache)| == 2 * |lh| + 2
    ensures CommitTrace(L, d, lh, cache)[2 * |lh| + 1] == Recover(L, Sealed(L, d, lh, cache))
  {
    CommitParts(L, d, lh, cache);
    hide CommitTrace, Sealed, Logged, Recover, DecodeHead, HeadOk, Clean;
  }

  lemma NothingToCommit(L: Layout, d: Disk, lh: seq<nat>, cache: map<nat, Block>)
    requires Clean(L, d) && CacheFor(L, lh, cache)
    ensures lh == [] ==> CommitTrace(L, d, lh, cache) == []
  {
  }

  /** Crash atomicity: cut off before its header write a commit recovers to the old contents, from then on to the new.
      */
  lemma CommitCrash(L: Layout, d: Disk, lh: seq<nat>, cache: map<nat, Block>, p: nat)
    requires Clean(L, d) && CacheFor(L, lh, cache) && p < |CommitTrace(L, d, lh, cache)|
    ensures HeadOk(L, CommitTrace(L, d, lh, cache)[p])
    ensures SameHome(L, Recover(L, CommitTrace(L, d, lh, cache)[p]), if p < |lh| then d else Overlay(d, cache))
  {
    hide CommitTrace, Recover, Sealed, Logged, DecodeHead, Installed, HeadOk, Overlay;
    var n, s := |lh|, Sealed(L, d, lh, cache);
    SealedRecovers(L, d, lh, cache);
    NothingToCommit(L, d, lh, cache);
    if p < n {
      LoggingImage(L, d, lh, cache, p);
      LoggedRecovers(L, d, lh, cache, p + 1);
    } else if p <= 2 * n {
      InstallingImage(L, d, lh, cache, p);
      InstalledRecovers(L, s, p - n);
    } else {
      LastImage(L, d, lh, cache);
      RecoverIdempotent(L, s);
    }
  }

  /** Where a finished commit leaves the disk: an empty header and the new contents in place. */
  lemma CommitDone(L: Layout, d: Disk, lh: seq<nat>, cache: map<nat, Block>)
    requires Clean(L, d) && CacheFor(L, lh, cache) && lh != []
    ensures |CommitTrace(L, d, lh, cache)| == 2 * |lh| + 2
    ensures var e := CommitTrace(L, d, lh, cache)[2 * |lh| + 1];
            Clean(L, e) && SameHome(L, e, Overlay(d, cache))
  {
    hide CommitTrace, Sealed, Overlay;
    var s := Sealed(L, d, lh, cache);
    SealedRecovers(L, d, lh, cache);
    LastImage(L, d, lh, cache);
    RecoverIdempotent(L, s);
    assert |DecodeHead(Recover(L, s)[L.start])| == 0;
  }

  /** A crash at any point of a commit, then any number of recoveries that crash too: when one completes, the home
      blocks are all old or all new. */
  lemma CommitThenCrashes(L: Layout, d: Disk, lh: seq<nat>, cache: map<nat, Block>, boots: seq<Disk>)
    requires Clean(L, d) && CacheFor(L, lh, cache) && CrashChain(L, boots)
    requires boots[0] == d || boots[0] in CommitTrace(L, d, lh, cache)
    ensures HeadOk(L, boots[|boots| - 1])
    ensures || SameHome(L, Recover(L, boots[|boots| - 1]), d)
            || SameHome(L, Recover(L, boots[|boots| - 1]), Overlay(d, cache))
  {
    hide Recover, CommitTrace;
    CrashChainHarmless(L, boots);
    if boots[0] == d {
      CleanRecovers(L, d);
    } else {
      var p :| 0 <= p < |CommitTrace(L, d, lh, cache)| && CommitTrace(L, d, lh, cache)[p] == boots[0];
      CommitCrash(L, d, lh, cache, p);
    }
  }
}
