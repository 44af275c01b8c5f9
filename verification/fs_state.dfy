/** The xv6 file system (fs.c) as a value: free bitmap, block contents and inodes with direct and indirect block slots;
    who owns which block, which blocks of a file are mapped, and the bytes a file holds. */
module FsState {
  import opened Common

  const BSIZE := 512
  const NDIRECT := 12
  const NINDIRECT := 128                       // BSIZE / sizeof(uint)
  const MAXFILE := NDIRECT + NINDIRECT
  const NSLOTS := NDIRECT + 1 + NINDIRECT      // direct blocks, the indirect block, its entries
  const BPB := BSIZE * 8
  const IPB := 8                               // BSIZE / sizeof(struct dinode)

  type Bytes = b: seq<Byte> | |b| == BSIZE witness seq(BSIZE, _ => 0)

  function Zeros(): Bytes {
    seq(BSIZE, _ => 0)
  }

  datatype FileType = Unused | Dir | File | Dev

  /** The inode fields that live on disk; major, minor and nlink play no part here. */
  type Addrs = a: seq<nat> | |a| == NDIRECT + 1 witness seq(NDIRECT + 1, _ => 0)
  datatype Inode = Inode(typ: FileType, size: nat, addrs: Addrs)

  /** The superblock: total size, first non-metadata block, and where inodes and bitmap start. */
  datatype Super = Super(size: nat, nmeta: nat, inodestart: nat, bmapstart: nat, ninodes: nat) {
    predicate Valid() {
      0 < nmeta <= size < UINT
    }

    function BBlock(b: nat): nat {
      b / BPB + bmapstart
    }

    function IBlock(i: nat): nat {
      i / IPB + inodestart
    }
  }

  /** How mkfs lays out the metadata. */
  predicate MkfsLayout(g: Super) {
    g.bmapstart == g.inodestart + g.ninodes / 8 + 1 && g.nmeta == g.bmapstart + g.size / 4096 + 1
  }

  /** Inode i is one of the eight inodes of the block that iupdate logs for it, bit b one of the 4096 bits of the block
      that balloc and bfree log for it, and both lie where mkfs put them. */
  lemma MetadataBlocks(g: Super, i: nat, b: nat)
    requires MkfsLayout(g) && i < g.ninodes && b < g.size
    ensures g.inodestart <= g.IBlock(i) < g.bmapstart <= g.BBlock(b) < g.nmeta
    ensures 8 * (g.IBlock(i) - g.inodestart) <= i < 8 * (g.IBlock(i) - g.inodestart) + 8
    ensures 4096 * (g.BBlock(b) - g.bmapstart) <= b < 4096 * (g.BBlock(b) - g.bmapstart) + 4096
  {
  }

  datatype Fs = Fs(bitmap: seq<bool>, blocks: seq<Bytes>, inodes: seq<Inode>)

  // ---- the words of an indirect block --------------------------------------------------------------------

  function GetUint(b: Bytes, j: nat): (v: nat)
    requires j < NINDIRECT
    ensures v < UINT
  {
    var b0: int, b1: int, b2: int, b3: int := b[4 * j], b[4 * j + 1], b[4 * j + 2], b[4 * j + 3];
    b0 + 0x100 * b1 + 0x1_0000 * b2 + 0x100_0000 * b3
  }

  function PutUint(b: Bytes, j: nat, v: nat): Bytes
    requires j < NINDIRECT && v < UINT
  {
    b[4 * j := v % 0x100][4 * j + 1 := v / 0x100 % 0x100]
     [4 * j + 2 := v / 0x1_0000 % 0x100][4 * j + 3 := v / 0x100_0000]
  }

  lemma UintDigits(v: nat)
    requires v < UINT
    ensures v % 0x100 + 0x100 * (v / 0x100 % 0x100) + 0x1_0000 * (v / 0x1_0000 % 0x100) + 0x100_0000 * (v / 0x100_0000)
            == v
  {
    var high := v / 0x100;
    assert v == 0x100 * high + v % 0x100;
    assert v / 0x1_0000 == high / 0x100 && high == 0x100 * (high / 0x100) + high % 0x100;
    var higher := high / 0x100;
    assert v / 0x100_0000 == higher / 0x100 && higher == 0x100 * (higher / 0x100) + higher % 0x100;
  }

  lemma UintRoundTrip(b: Bytes, j: nat, v: nat, k: nat)
    requires j < NINDIRECT && v < UINT && k < NINDIRECT
    ensures GetUint(PutUint(b, j, v), k) == if k == j then v else GetUint(b, k)
  {
    var c := PutUint(b, j, v);
    if k == j {
      UintDigits(v);
      assert c[4 * j] == v % 0x100 && c[4 * j + 1] == v / 0x100 % 0x100;
      assert c[4 * j + 2] == v / 0x1_0000 % 0x100 && c[4 * j + 3] == v / 0x100_0000;
    } else {
      assert c[4 * k] == b[4 * k] && c[4 * k + 1] == b[4 * k + 1];
      assert c[4 * k + 2] == b[4 * k + 2] && c[4 * k + 3] == b[4 * k + 3];
    }
  }

  /** Words are stored least significant byte first. */
  lemma LittleEndian(b: Bytes, j: nat, v: nat)
    requires j < NINDIRECT && v < UINT
    ensures var c := PutUint(b, j, v);
            c[4 * j] as int + 0x100 * c[4 * j + 1] as int + 0x1_0000 * c[4 * j + 2] as int
            + 0x100_0000 * c[4 * j + 3] as int
            == v
  {
    UintDigits(v);
    var c := PutUint(b, j, v);
    assert c[4 * j] == v % 0x100 && c[4 * j + 1] == v / 0x100 % 0x100;
    assert c[4 * j + 2] == v / 0x1_0000 % 0x100 && c[4 * j + 3] == v / 0x100_0000;
  }

  // ---- slots -----------------------------------------------------------------------------------------------

  ghost predicate Shape(g: Super, fs: Fs) {
    && g.Valid()
    && |fs.bitmap| == g.size && |fs.blocks| == g.size && |fs.inodes| == g.ninodes
    && (forall i, k :: 0 <= i < g.ninodes && 0 <= k <= NDIRECT ==> fs.inodes[i].addrs[k] < g.size)
  }

  /** Slot k of inode i: a direct address, the indirect block's address, or an entry of the indirect block; 0 if
      unset. */
  function Slot(g: Super, fs: Fs, i: nat, k: nat): nat
    requires Shape(g, fs) && i < g.ninodes && k < NSLOTS
  {
    if k <= NDIRECT then fs.inodes[i].addrs[k]
    else if fs.inodes[i].addrs[NDIRECT] == 0 then 0
    else GetUint(fs.blocks[fs.inodes[i].addrs[NDIRECT]], k - NDIRECT - 1)
  }

  /** The slot of a file's bn-th block. */
  function SlotOf(bn: nat): nat {
    if bn < NDIRECT then bn else bn + 1
  }

  /** Where the address of a file's n-th block is found on disk: the first twelve in the inode, the others as
      little-endian words of the block that the inode's thirteenth address names. */
  lemma AddressOnDisk(g: Super, fs: Fs, i: nat, n: nat)
    requires Shape(g, fs) && i < g.ninodes && n < 140
    ensures n < 12 ==> Slot(g, fs, i, SlotOf(n)) == fs.inodes[i].addrs[n]
    ensures n >= 12 ==>
              var a, j := fs.inodes[i].addrs[12], n - 12;
              Slot(g, fs, i, SlotOf(n))
              == if a == 0 then 0
                 else fs.blocks[a][4 * j] as int + 0x100 * fs.blocks[a][4 * j + 1] as int
                      + 0x1_0000 * fs.blocks[a][4 * j + 2] as int + 0x100_0000 * fs.blocks[a][4 * j + 3] as int
  {
  }

  /** A set slot names an allocated block past the metadata. */
  ghost predicate SlotAllocated(g: Super, fs: Fs, i: nat, k: nat)
    requires Shape(g, fs) && i < g.ninodes && k < NSLOTS
  {
    Slot(g, fs, i, k) != 0 ==> g.nmeta <= Slot(g, fs, i, k) < g.size && fs.bitmap[Slot(g, fs, i, k)]
  }

  /** No two slots name the same block. */
  ghost predicate SlotsDistinct(g: Super, fs: Fs, i: nat, k: nat, j: nat, l: nat)
    requires Shape(g, fs) && i < g.ninodes && k < NSLOTS && j < g.ninodes && l < NSLOTS
  {
    Slot(g, fs, i, k) != 0 && Slot(g, fs, i, k) == Slot(g, fs, j, l) ==> i == j && k == l
  }

  ghost predicate HasOwner(g: Super, fs: Fs, b: nat)
    requires Shape(g, fs)
  {
    exists i: nat, k: nat :: i < g.ninodes && k < NSLOTS && Slot(g, fs, i, k) == b
  }

  /** A bitmap bit is set iff its block is metadata or is referenced by exactly one slot of one inode. */
  ghost predicate Owned(g: Super, fs: Fs) {
    && Shape(g, fs)
    && (forall i: nat, k: nat {:trigger Slot(g, fs, i, k)} ::
          i < g.ninodes && k < NSLOTS ==> SlotAllocated(g, fs, i, k))
    && (forall i: nat, k: nat, j: nat, l: nat {:trigger Slot(g, fs, i, k), Slot(g, fs, j, l)} ::
          i < g.ninodes && k < NSLOTS && j < g.ninodes && l < NSLOTS ==> SlotsDistinct(g, fs, i, k, j, l))
    && (forall b: nat {:trigger fs.bitmap[b]} :: g.nmeta <= b < g.size && fs.bitmap[b] ==> HasOwner(g, fs, b))
    && (forall b: nat {:trigger fs.bitmap[b]} :: b < g.nmeta ==> fs.bitmap[b])
  }

  /** Exactly the first cnt blocks of inode i are mapped, and the indirect block iff one of them needs it. */
  ghost predicate Mapped(g: Super, fs: Fs, i: nat, cnt: nat)
    requires Shape(g, fs) && i < g.ninodes
  {
    && cnt <= MAXFILE
    && (forall bn: nat {:trigger SlotOf(bn)} :: bn < MAXFILE ==> (Slot(g, fs, i, SlotOf(bn)) != 0 <==> bn < cnt))
    && (Slot(g, fs, i, NDIRECT) != 0 <==> cnt > NDIRECT)
  }

  function NBlocks(size: nat): nat {
    (size + BSIZE - 1) / BSIZE
  }

  /** mkfs moves the size of the root directory to the next block boundary: that adds no block, and so leaves no hole,
      if and only if its entries end inside a block. */
  lemma RootSizeRounded(off: nat)
    ensures NBlocks((off / BSIZE + 1) * BSIZE) == NBlocks(off) <==> off % BSIZE != 0
  {
  }

  /** Sound but for inode i, of which cnt blocks are mapped. */
  ghost predicate OkBut(g: Super, fs: Fs, i: nat, cnt: nat) {
    && Owned(g, fs) && i < g.ninodes && Mapped(g, fs, i, cnt)
    && (forall j: nat {:trigger fs.inodes[j]} ::
          j < g.ninodes && j != i ==> Mapped(g, fs, j, NBlocks(fs.inodes[j].size)))
  }

  /** No holes anywhere: block k of a file is mapped iff k * BSIZE < size. */
  ghost predicate FsOk(g: Super, fs: Fs) {
    && Owned(g, fs)
    && (forall j: nat {:trigger fs.inodes[j]} :: j < g.ninodes ==> Mapped(g, fs, j, NBlocks(fs.inodes[j].size)))
  }

  // ---- contents --------------------------------------------------------------------------------------------

  /** Byte p of inode i. */
  function ByteAt(g: Super, fs: Fs, i: nat, p: nat): Byte
    requires Shape(g, fs) && i < g.ninodes && p < MAXFILE * BSIZE
  {
    if Slot(g, fs, i, SlotOf(p / BSIZE)) < g.size then fs.blocks[Slot(g, fs, i, SlotOf(p / BSIZE))][p % BSIZE] else 0
  }

  /** The byte sequence a file holds. */
  ghost function Content(g: Super, fs: Fs, i: nat): (c: seq<Byte>)
    requires Shape(g, fs) && i < g.ninodes && fs.inodes[i].size <= MAXFILE * BSIZE
    ensures |c| == fs.inodes[i].size
  {
    seq(fs.inodes[i].size, p requires 0 <= p < fs.inodes[i].size => ByteAt(g, fs, i, p))
  }

  // ---- setting one slot ------------------------------------------------------------------------------------

  /** fs' is fs with the free block b taken, zeroed and put into the unset slot k of inode i. */
  ghost predicate SlotSet(g: Super, fs: Fs, fs': Fs, i: nat, k: nat, b: nat) {
    && Owned(g, fs) && Shape(g, fs') && i < g.ninodes && k < NSLOTS && b < g.size && !fs.bitmap[b]
    && fs'.bitmap == fs.bitmap[b := true]
    && Slot(g, fs, i, k) == 0 && Slot(g, fs', i, k) == b
    && (forall j: nat, l: nat {:trigger Slot(g, fs', j, l)} :: j < g.ninodes && l < NSLOTS && !(j == i && l == k) ==>
          Slot(g, fs', j, l) == Slot(g, fs, j, l))
    && (forall j: nat {:trigger fs'.inodes[j]} :: j < g.ninodes ==>
          && fs'.inodes[j].typ == fs.inodes[j].typ && fs'.inodes[j].size == fs.inodes[j].size
          && (j != i ==> fs'.inodes[j] == fs.inodes[j]))
    && (forall x: nat {:trigger fs'.blocks[x]} :: x < g.size && x != b && x != Slot(g, fs, i, NDIRECT) ==>
          fs'.blocks[x] == fs.blocks[x])
    && fs'.blocks[b] == Zeros()
  }

  lemma SlotSetOwned(g: Super, fs: Fs, fs': Fs, i: nat, k: nat, b: nat)
    requires SlotSet(g, fs, fs', i, k, b)
    ensures Owned(g, fs') && b >= g.nmeta
  {
    forall x: nat | g.nmeta <= x < g.size && fs'.bitmap[x]
      ensures HasOwner(g, fs', x)
    {
      if x == b {
        assert Slot(g, fs', i, k) == x;
      } else {
        assert HasOwner(g, fs, x);
        var j: nat, l: nat :| j < g.ninodes && l < NSLOTS && Slot(g, fs, j, l) == x;
        assert Slot(g, fs', j, l) == x;
      }
    }
    forall j: nat, l: nat | j < g.ninodes && l < NSLOTS
      ensures SlotAllocated(g, fs', j, l)
      ensures Slot(g, fs, j, l) != b
    {
      assert SlotAllocated(g, fs, j, l);
    }
    forall j: nat, l: nat, m: nat, n: nat | j < g.ninodes && l < NSLOTS && m < g.ninodes && n < NSLOTS
      ensures SlotsDistinct(g, fs', j, l, m, n)
    {
      assert SlotsDistinct(g, fs, j, l, m, n);
    }
  }

  function Taken(fs: Fs, b: nat): Fs
    requires b < |fs.bitmap| && b < |fs.blocks|
  {
    Fs(fs.bitmap[b := true], fs.blocks[b := Zeros()], fs.inodes)
  }

  function WithAddr(fs: Fs, i: nat, k: nat, b: nat): Fs
    requires i < |fs.inodes| && k <= NDIRECT
  {
    Fs(fs.bitmap, fs.blocks,
       fs.inodes[i := Inode(fs.inodes[i].typ, fs.inodes[i].size, fs.inodes[i].addrs[k := b])])
  }

  function WithEntry(fs: Fs, i: nat, e: nat, b: nat): Fs
    requires i < |fs.inodes| && fs.inodes[i].addrs[NDIRECT] < |fs.blocks| && e < NINDIRECT && b < UINT
  {
    Fs(fs.bitmap, fs.blocks[fs.inodes[i].addrs[NDIRECT] := PutUint(fs.blocks[fs.inodes[i].addrs[NDIRECT]], e, b)],
       fs.inodes)
  }

  /** Taking a free block disturbs no slot. */
  lemma TakenSlots(g: Super, fs: Fs, b: nat, j: nat, l: nat)
    requires Owned(g, fs) && b < g.size && !fs.bitmap[b] && j < g.ninodes && l < NSLOTS
    ensures Shape(g, Taken(fs, b)) && Slot(g, Taken(fs, b), j, l) == Slot(g, fs, j, l)
  {
    assert SlotAllocated(g, fs, j, NDIRECT);
    assert Slot(g, fs, j, NDIRECT) == fs.inodes[j].addrs[NDIRECT];
  }

  ghost predicate NoEntries(g: Super, fs: Fs, i: nat)
    requires Shape(g, fs) && i < g.ninodes
  {
    forall l {:trigger Slot(g, fs, i, l)} :: NDIRECT < l < NSLOTS ==> Slot(g, fs, i, l) == 0
  }

  /** bmap fills a direct slot, or the indirect block's slot, with a fresh block. */
  lemma AddrSet(g: Super, fs: Fs, i: nat, k: nat, b: nat)
    requires Owned(g, fs) && i < g.ninodes && k <= NDIRECT && b < g.size && !fs.bitmap[b]
    requires Slot(g, fs, i, k) == 0 && (k == NDIRECT ==> NoEntries(g, fs, i))
    ensures SlotSet(g, fs, WithAddr(Taken(fs, b), i, k, b), i, k, b)
  {
    var fs' := WithAddr(Taken(fs, b), i, k, b);
    forall j: nat, l: nat | j < g.ninodes && l < NSLOTS && !(j == i && l == k)
      ensures Slot(g, fs', j, l) == Slot(g, fs, j, l)
    {
      TakenSlots(g, fs, b, j, l);
    }
  }

  /** bmap fills an entry of the indirect block with a fresh block. */
  lemma EntrySet(g: Super, fs: Fs, i: nat, e: nat, b: nat)
    requires Owned(g, fs) && i < g.ninodes && e < NINDIRECT && b < g.size && !fs.bitmap[b]
    requires Slot(g, fs, i, NDIRECT) != 0 && Slot(g, fs, i, NDIRECT + 1 + e) == 0
    ensures SlotSet(g, fs, WithEntry(Taken(fs, b), i, e, b), i, NDIRECT + 1 + e, b)
  {
    var fs' := WithEntry(Taken(fs, b), i, e, b);
    var t := Slot(g, fs, i, NDIRECT);
    assert SlotAllocated(g, fs, i, NDIRECT);
    forall j: nat, l: nat | j < g.ninodes && l < NSLOTS
      ensures Slot(g, fs', j, l) == if j == i && l == NDIRECT + 1 + e then b else Slot(g, fs, j, l)
    {
      TakenSlots(g, fs, b, j, l);
      assert SlotsDistinct(g, fs, i, NDIRECT, j, NDIRECT);
      if j == i && l > NDIRECT {
        UintRoundTrip(fs.blocks[t], e, b, l - NDIRECT - 1);
      }
    }
  }

  /** Filling a slot leaves the data of every block that was mapped before. */
  lemma SlotSetBytes(g: Super, fs: Fs, fs': Fs, i: nat, k: nat, b: nat, j: nat, p: nat)
    requires SlotSet(g, fs, fs', i, k, b) && j < g.ninodes && p < MAXFILE * BSIZE
    requires Slot(g, fs, j, SlotOf(p / BSIZE)) != 0
    ensures Slot(g, fs', j, SlotOf(p / BSIZE)) == Slot(g, fs, j, SlotOf(p / BSIZE))
    ensures ByteAt(g, fs', j, p) == ByteAt(g, fs, j, p)
  {
    var l := SlotOf(p / BSIZE);
    assert SlotAllocated(g, fs, j, l);
    assert SlotsDistinct(g, fs, j, l, i, NDIRECT);
    assert Slot(g, fs', j, l) == Slot(g, fs, j, l);
  }

  // ---- what bmap does --------------------------------------------------------------------------------------

  /** The data mapped in fs reads the same in fs'. */
  ghost predicate DataKept(g: Super, fs: Fs, fs': Fs)
    requires Shape(g, fs) && Shape(g, fs')
  {
    forall j: nat, p: nat {:trigger ByteAt(g, fs', j, p)} :: j < g.ninodes && p < MAXFILE * BSIZE ==>
      Slot(g, fs, j, SlotOf(p / BSIZE)) != 0 ==> ByteAt(g, fs', j, p) == ByteAt(g, fs, j, p)
  }

  /** Inodes keep type and size, and all but inode i everything. */
  ghost predicate InodesKept(g: Super, fs: Fs, fs': Fs, i: nat)
    requires Shape(g, fs) && Shape(g, fs')
  {
    forall j: nat {:trigger fs'.inodes[j]} :: j < g.ninodes ==>
      && fs'.inodes[j].typ == fs.inodes[j].typ && fs'.inodes[j].size == fs.inodes[j].size
      && (j != i ==> fs'.inodes[j] == fs.inodes[j])
  }

  /** Block bn of inode i, unmapped in fs, is the fresh zeroed block r in fs'; beyond that at most the inode's
      indirect block was added. */
  ghost predicate Grown(g: Super, fs: Fs, fs': Fs, i: nat, bn: nat, r: nat) {
    && Owned(g, fs) && Owned(g, fs') && i < g.ninodes && bn < MAXFILE
    && Slot(g, fs, i, SlotOf(bn)) == 0 && Slot(g, fs', i, SlotOf(bn)) == r && g.nmeta <= r < g.size
    && fs'.blocks[r] == Zeros()
    && (Slot(g, fs', i, NDIRECT) != 0 <==> Slot(g, fs, i, NDIRECT) != 0 || bn >= NDIRECT)
    && (Slot(g, fs, i, NDIRECT) != 0 ==> Slot(g, fs', i, NDIRECT) == Slot(g, fs, i, NDIRECT))
    && (forall j: nat, l: nat {:trigger Slot(g, fs', j, l)} :: j < g.ninodes && l < NSLOTS ==>
          (j == i && (l == SlotOf(bn) || l == NDIRECT)) || Slot(g, fs', j, l) == Slot(g, fs, j, l))
    && InodesKept(g, fs, fs', i)
    && DataKept(g, fs, fs')
  }

  lemma GrownOne(g: Super, fs: Fs, fs': Fs, i: nat, bn: nat, b: nat)
    requires bn < MAXFILE && SlotSet(g, fs, fs', i, SlotOf(bn), b)
    requires bn >= NDIRECT ==> Slot(g, fs, i, NDIRECT) != 0
    ensures Grown(g, fs, fs', i, bn, b)
  {
    SlotSetOwned(g, fs, fs', i, SlotOf(bn), b);
    forall j: nat, p: nat | j < g.ninodes && p < MAXFILE * BSIZE && Slot(g, fs, j, SlotOf(p / BSIZE)) != 0
      ensures ByteAt(g, fs', j, p) == ByteAt(g, fs, j, p)
    {
      SlotSetBytes(g, fs, fs', i, SlotOf(bn), b, j, p);
    }
    assert Slot(g, fs', i, NDIRECT) == Slot(g, fs, i, NDIRECT);
  }

  lemma GrownTwo(g: Super, fs: Fs, mid: Fs, fs': Fs, i: nat, bn: nat, t: nat, b: nat)
    requires NDIRECT <= bn < MAXFILE
    requires SlotSet(g, fs, mid, i, NDIRECT, t) && SlotSet(g, mid, fs', i, SlotOf(bn), b)
    ensures Grown(g, fs, fs', i, bn, b)
  {
    SlotSetOwned(g, fs, mid, i, NDIRECT, t);
    SlotSetOwned(g, mid, fs', i, SlotOf(bn), b);
    assert Slot(g, mid, i, SlotOf(bn)) == Slot(g, fs, i, SlotOf(bn));
    forall j: nat, p: nat | j < g.ninodes && p < MAXFILE * BSIZE && Slot(g, fs, j, SlotOf(p / BSIZE)) != 0
      ensures ByteAt(g, fs', j, p) == ByteAt(g, fs, j, p)
    {
      SlotSetBytes(g, fs, mid, i, NDIRECT, t, j, p);
      SlotSetBytes(g, mid, fs', i, SlotOf(bn), b, j, p);
    }
    assert Slot(g, fs', i, NDIRECT) == Slot(g, mid, i, NDIRECT);
    forall j: nat, l: nat | j < g.ninodes && l < NSLOTS && !(j == i && (l == SlotOf(bn) || l == NDIRECT))
      ensures Slot(g, fs', j, l) == Slot(g, fs, j, l)
    {
      assert Slot(g, mid, j, l) == Slot(g, fs, j, l);
    }
    forall j: nat | j < g.ninodes
      ensures fs'.inodes[j].typ == fs.inodes[j].typ && fs'.inodes[j].size == fs.inodes[j].size
      ensures j != i ==> fs'.inodes[j] == fs.inodes[j]
    {
      assert mid.inodes[j].size == fs.inodes[j].size;
    }
  }

  /** Mapping the block just past the mapped ones keeps files free of holes. */
  lemma GrownMapped(g: Super, fs: Fs, fs': Fs, i: nat, bn: nat, r: nat)
    requires OkBut(g, fs, i, bn) && Grown(g, fs, fs', i, bn, r)
    ensures OkBut(g, fs', i, bn + 1)
  {
    forall m: nat | m < MAXFILE
      ensures Slot(g, fs', i, SlotOf(m)) != 0 <==> m < bn + 1
    {
      if m != bn {
        assert Slot(g, fs', i, SlotOf(m)) == Slot(g, fs, i, SlotOf(m));
      }
    }
    forall j: nat | j < g.ninodes && j != i
      ensures Mapped(g, fs', j, NBlocks(fs'.inodes[j].size))
    {
      assert fs'.inodes[j] == fs.inodes[j];
      forall l | 0 <= l < NSLOTS
        ensures Slot(g, fs', j, l) == Slot(g, fs, j, l)
      {
      }
    }
  }

  // ---- writing into a mapped block -------------------------------------------------------------------------

  function WithBlock(fs: Fs, b: nat, data: Bytes): Fs
    requires b < |fs.blocks|
  {
    Fs(fs.bitmap, fs.blocks[b := data], fs.inodes)
  }

  /** Data blocks are not indirect blocks, so writing one moves no slot. */
  lemma DataWriteSlots(g: Super, fs: Fs, i: nat, bn: nat, data: Bytes, j: nat, l: nat)
    requires Owned(g, fs) && i < g.ninodes && bn < MAXFILE && j < g.ninodes && l < NSLOTS
    requires Slot(g, fs, i, SlotOf(bn)) != 0
    ensures Slot(g, fs, i, SlotOf(bn)) < g.size
    ensures Shape(g, WithBlock(fs, Slot(g, fs, i, SlotOf(bn)), data))
    ensures Slot(g, WithBlock(fs, Slot(g, fs, i, SlotOf(bn)), data), j, l) == Slot(g, fs, j, l)
  {
    assert SlotAllocated(g, fs, i, SlotOf(bn));
    assert SlotsDistinct(g, fs, i, SlotOf(bn), j, NDIRECT);
    assert Slot(g, fs, j, NDIRECT) == fs.inodes[j].addrs[NDIRECT];
  }

  lemma DataWriteOk(g: Super, fs: Fs, i: nat, cnt: nat, bn: nat, data: Bytes)
    requires OkBut(g, fs, i, cnt) && bn < cnt
    ensures Slot(g, fs, i, SlotOf(bn)) < g.size
    ensures OkBut(g, WithBlock(fs, Slot(g, fs, i, SlotOf(bn)), data), i, cnt)
  {
    assert Slot(g, fs, i, SlotOf(bn)) != 0;
    DataWriteSlots(g, fs, i, bn, data, i, 0);
    var fs' := WithBlock(fs, Slot(g, fs, i, SlotOf(bn)), data);
    forall j: nat, l: nat | j < g.ninodes && l < NSLOTS
      ensures Slot(g, fs', j, l) == Slot(g, fs, j, l)
    {
      DataWriteSlots(g, fs, i, bn, data, j, l);
    }
    SameSlotsOk(g, fs, fs', i, cnt);
  }

  /** States with the same bitmap and slots are equally sound. */
  lemma SameSlotsOk(g: Super, fs: Fs, fs': Fs, i: nat, cnt: nat)
    requires OkBut(g, fs, i, cnt) && Shape(g, fs') && fs'.bitmap == fs.bitmap
    requires forall j: nat, l: nat {:trigger Slot(g, fs', j, l)} :: j < g.ninodes && l < NSLOTS ==>
               Slot(g, fs', j, l) == Slot(g, fs, j, l)
    requires forall j: nat :: j < g.ninodes && j != i ==> fs'.inodes[j].size == fs.inodes[j].size
    ensures OkBut(g, fs', i, cnt)
  {
    forall x: nat | g.nmeta <= x < g.size && fs'.bitmap[x]
      ensures HasOwner(g, fs', x)
    {
      assert HasOwner(g, fs, x);
      var j: nat, l: nat :| j < g.ninodes && l < NSLOTS && Slot(g, fs, j, l) == x;
      assert Slot(g, fs', j, l) == x;
    }
    forall j: nat, l: nat | j < g.ninodes && l < NSLOTS
      ensures SlotAllocated(g, fs', j, l)
    {
      assert SlotAllocated(g, fs, j, l);
    }
    forall j: nat, l: nat, m: nat, n: nat | j < g.ninodes && l < NSLOTS && m < g.ninodes && n < NSLOTS
      ensures SlotsDistinct(g, fs', j, l, m, n)
    {
      assert SlotsDistinct(g, fs, j, l, m, n);
    }
    forall j: nat | j < g.ninodes && j != i
      ensures Mapped(g, fs', j, NBlocks(fs'.inodes[j].size))
    {
      assert fs.inodes[j].size == fs'.inodes[j].size;
    }
  }

  /** Only the written block's bytes change. */
  lemma DataWriteBytes(g: Super, fs: Fs, i: nat, bn: nat, data: Bytes, j: nat, p: nat)
    requires Owned(g, fs) && i < g.ninodes && bn < MAXFILE && j < g.ninodes && p < MAXFILE * BSIZE
    requires Slot(g, fs, i, SlotOf(bn)) != 0 && Slot(g, fs, j, SlotOf(p / BSIZE)) != 0
    ensures Slot(g, fs, i, SlotOf(bn)) < g.size && Shape(g, WithBlock(fs, Slot(g, fs, i, SlotOf(bn)), data))
    ensures ByteAt(g, WithBlock(fs, Slot(g, fs, i, SlotOf(bn)), data), j, p)
            == if j == i && p / BSIZE == bn then data[p % BSIZE] else ByteAt(g, fs, j, p)
  {
    DataWriteSlots(g, fs, i, bn, data, j, SlotOf(p / BSIZE));
    assert SlotsDistinct(g, fs, i, SlotOf(bn), j, SlotOf(p / BSIZE));
  }

  // ---- truncating a file -----------------------------------------------------------------------------------

  /** Block b is in one of the first n slots of inode i. */
  ghost predicate InSlots(g: Super, fs: Fs, i: nat, n: nat, b: nat)
    requires Shape(g, fs) && i < g.ninodes && n <= NSLOTS
  {
    b != 0 && exists k: nat :: k < n && Slot(g, fs, i, k) == b
  }

  function NoAddrs(): Addrs {
    seq(NDIRECT + 1, _ => 0)
  }

  /** fs with everything inode i owns given back and the inode emptied. */
  ghost predicate Truncated(g: Super, fs: Fs, fs': Fs, i: nat) {
    && Shape(g, fs) && i < g.ninodes
    && |fs'.bitmap| == g.size
    && (forall b: nat {:trigger fs'.bitmap[b]} :: b < g.size ==>
          (fs'.bitmap[b] <==> fs.bitmap[b] && !InSlots(g, fs, i, NSLOTS, b)))
    && fs'.blocks == fs.blocks
    && fs'.inodes == fs.inodes[i := Inode(fs.inodes[i].typ, 0, NoAddrs())]
  }

  lemma TruncatedSlots(g: Super, fs: Fs, fs': Fs, i: nat, j: nat, l: nat)
    requires Truncated(g, fs, fs', i) && j < g.ninodes && l < NSLOTS
    ensures Shape(g, fs') && Slot(g, fs', j, l) == if j == i then 0 else Slot(g, fs, j, l)
  {
  }

  /** Truncation keeps ownership exact, empties the file and leaves the others alone. */
  lemma TruncatedOk(g: Super, fs: Fs, fs': Fs, i: nat, cnt: nat)
    requires OkBut(g, fs, i, cnt) && Truncated(g, fs, fs', i)
    ensures FsOk(g, fs')
    ensures forall j: nat, p: nat :: j < g.ninodes && j != i && p < MAXFILE * BSIZE ==>
              ByteAt(g, fs', j, p) == ByteAt(g, fs, j, p)
  {
    TruncatedSlots(g, fs, fs', i, i, 0);
    forall j: nat, l: nat | j < g.ninodes && l < NSLOTS
      ensures Slot(g, fs', j, l) == if j == i then 0 else Slot(g, fs, j, l)
    {
      TruncatedSlots(g, fs, fs', i, j, l);
    }
    TruncatedOwned(g, fs, fs', i);
    forall j: nat | j < g.ninodes
      ensures Mapped(g, fs', j, NBlocks(fs'.inodes[j].size))
    {
      if j != i {
        assert fs'.inodes[j] == fs.inodes[j];
      }
    }
  }

  lemma TruncatedOwned(g: Super, fs: Fs, fs': Fs, i: nat)
    requires Owned(g, fs) && Truncated(g, fs, fs', i) && Shape(g, fs')
    requires forall j: nat, l: nat {:trigger Slot(g, fs', j, l)} :: j < g.ninodes && l < NSLOTS ==>
               Slot(g, fs', j, l) == if j == i then 0 else Slot(g, fs, j, l)
    ensures Owned(g, fs')
  {
    forall b: nat | g.nmeta <= b < g.size && fs'.bitmap[b]
      ensures HasOwner(g, fs', b)
    {
      assert HasOwner(g, fs, b);
      var j: nat, l: nat :| j < g.ninodes && l < NSLOTS && Slot(g, fs, j, l) == b;
      assert Slot(g, fs', j, l) == b;
    }
    forall b: nat | b < g.nmeta
      ensures fs'.bitmap[b]
    {
      assert fs.bitmap[b];
      forall k: nat | k < NSLOTS
        ensures Slot(g, fs, i, k) != b || b == 0
      {
        assert SlotAllocated(g, fs, i, k);
      }
    }
    forall j: nat, l: nat | j < g.ninodes && l < NSLOTS
      ensures SlotAllocated(g, fs', j, l)
    {
      assert SlotAllocated(g, fs, j, l);
      if j != i && Slot(g, fs, j, l) != 0 {
        forall k: nat | k < NSLOTS
          ensures Slot(g, fs, i, k) != Slot(g, fs, j, l)
        {
          assert SlotsDistinct(g, fs, j, l, i, k);
        }
      }
    }
    forall j: nat, l: nat, m: nat, n: nat | j < g.ninodes && l < NSLOTS && m < g.ninodes && n < NSLOTS
      ensures SlotsDistinct(g, fs', j, l, m, n)
    {
      assert SlotsDistinct(g, fs, j, l, m, n);
    }
  }

  // ---- one iteration of writei -----------------------------------------------------------------------------

  function Max(a: nat, b: nat): nat {
    if a < b then b else a
  }

  /** Inode i reads as in fs0 with src stored at off0..off. */
  ghost predicate WrittenTo(g: Super, fs0: Fs, fs: Fs, i: nat, off0: nat, off: nat, src: seq<Byte>)
    requires Shape(g, fs0) && Shape(g, fs) && i < g.ninodes
    requires off0 <= off <= off0 + |src| <= MAXFILE * BSIZE
  {
    forall p: nat {:trigger ByteAt(g, fs, i, p)} :: p < Max(fs0.inodes[i].size, off) && p < MAXFILE * BSIZE ==>
      ByteAt(g, fs, i, p) == if off0 <= p < off then src[p - off0] else ByteAt(g, fs0, i, p)
  }

  /** Every other inode is untouched and reads as before. */
  ghost predicate OthersKept(g: Super, fs0: Fs, fs: Fs, i: nat)
    requires Shape(g, fs0) && Shape(g, fs)
  {
    && (forall j: nat {:trigger fs.inodes[j]} :: j < g.ninodes && j != i ==> fs.inodes[j] == fs0.inodes[j])
    && (forall j: nat, p: nat {:trigger ByteAt(g, fs, j, p)} :: j < g.ninodes && j != i && p < MAXFILE * BSIZE ==>
          p < fs0.inodes[j].size ==> ByteAt(g, fs, j, p) == ByteAt(g, fs0, j, p))
  }

  /** The block writei stores: m bytes of src from position tot on, at offset o. */
  function Patched(old_data: Bytes, o: nat, src: seq<Byte>, tot: nat, m: nat): Bytes
    requires o + m <= BSIZE && tot + m <= |src|
  {
    old_data[..o] + src[tot..tot + m] + old_data[o + m..]
  }

  /** Mapped blocks before and after the bmap call of an iteration. */
  ghost predicate BmapStep(g: Super, fs: Fs, fs': Fs, i: nat, cnt: nat, bn: nat, r: nat) {
    && OkBut(g, fs, i, cnt) && bn <= cnt && bn < MAXFILE
    && (if bn < cnt then fs' == fs && r == Slot(g, fs, i, SlotOf(bn)) else Grown(g, fs, fs', i, bn, r))
  }

  lemma BmapStepOk(g: Super, fs: Fs, fs': Fs, i: nat, cnt: nat, bn: nat, r: nat)
    requires BmapStep(g, fs, fs', i, cnt, bn, r)
    ensures Shape(g, fs) && Shape(g, fs') && i < g.ninodes
    ensures OkBut(g, fs', i, Max(cnt, bn + 1)) && r == Slot(g, fs', i, SlotOf(bn)) != 0 && r < g.size
    ensures InodesKept(g, fs, fs', i) && DataKept(g, fs, fs')
  {
    if bn == cnt {
      GrownMapped(g, fs, fs', i, bn, r);
    } else {
      assert SlotAllocated(g, fs, i, SlotOf(bn));
    }
  }

  /** Storing the piece keeps ownership exact and all other inodes. */
  lemma PieceKeepsOthers(g: Super, fs0: Fs, fs1: Fs, fs2: Fs, i: nat, cnt: nat, bn: nat, r: nat, data: Bytes)
    requires FsOk(g, fs0) && BmapStep(g, fs1, fs2, i, cnt, bn, r) && OthersKept(g, fs0, fs1, i)
    ensures r < g.size && OkBut(g, WithBlock(fs2, r, data), i, Max(cnt, bn + 1))
    ensures OthersKept(g, fs0, WithBlock(fs2, r, data), i)
  {
    BmapStepOk(g, fs1, fs2, i, cnt, bn, r);
    DataWriteOk(g, fs2, i, Max(cnt, bn + 1), bn, data);
    var fs3 := WithBlock(fs2, r, data);
    forall j: nat, p: nat | j < g.ninodes && j != i && p < MAXFILE * BSIZE && p < fs0.inodes[j].size
      ensures ByteAt(g, fs3, j, p) == ByteAt(g, fs0, j, p)
    {
      assert fs1.inodes[j] == fs0.inodes[j] && fs2.inodes[j] == fs1.inodes[j];
      assert Slot(g, fs1, j, SlotOf(p / BSIZE)) != 0;
      assert Slot(g, fs2, j, SlotOf(p / BSIZE)) != 0;
      DataWriteBytes(g, fs2, i, bn, data, j, p);
      assert ByteAt(g, fs2, j, p) == ByteAt(g, fs1, j, p);
    }
    forall j: nat | j < g.ninodes && j != i
      ensures fs3.inodes[j] == fs0.inodes[j]
    {
      assert fs1.inodes[j] == fs0.inodes[j] && fs2.inodes[j] == fs1.inodes[j];
    }
  }

  /** Storing the piece extends what has been written. */
  lemma PieceWritten(g: Super, fs0: Fs, fs1: Fs, fs2: Fs, i: nat, off0: nat, off: nat, m: nat, src: seq<Byte>, r: nat)
    requires Shape(g, fs0) && i < g.ninodes && off0 <= fs0.inodes[i].size <= MAXFILE * BSIZE
    requires off0 <= off <= off + m <= off0 + |src| <= MAXFILE * BSIZE
    requires m > 0 && off % BSIZE + m <= BSIZE && (off % BSIZE + m == BSIZE || off + m == off0 + |src|)
    requires BmapStep(g, fs1, fs2, i, NBlocks(Max(fs0.inodes[i].size, off)), off / BSIZE, r)
    requires WrittenTo(g, fs0, fs1, i, off0, off, src)
    ensures r < g.size
    ensures var fs3 := WithBlock(fs2, r, Patched(fs2.blocks[r], off % BSIZE, src, off - off0, m));
            Shape(g, fs3) && WrittenTo(g, fs0, fs3, i, off0, off + m, src)
  {
    hide Owned, Grown, Mapped, Slot, NBlocks;
    BmapStepOk(g, fs1, fs2, i, NBlocks(Max(fs0.inodes[i].size, off)), off / BSIZE, r);
    var fs3 := WithBlock(fs2, r, Patched(fs2.blocks[r], off % BSIZE, src, off - off0, m));
    forall p: nat | p < Max(fs0.inodes[i].size, off + m) && p < MAXFILE * BSIZE
      ensures ByteAt(g, fs3, i, p) == if off0 <= p < off + m then src[p - off0] else ByteAt(g, fs0, i, p)
    {
      PieceByte(g, fs0, fs1, fs2, i, off0, off, m, src, r, p);
    }
  }

  lemma PieceByte(g: Super, fs0: Fs, fs1: Fs, fs2: Fs, i: nat, off0: nat, off: nat, m: nat, src: seq<Byte>, r: nat,
                  p: nat)
    requires Shape(g, fs0) && i < g.ninodes && off0 <= fs0.inodes[i].size <= MAXFILE * BSIZE
    requires off0 <= off <= off + m <= off0 + |src| <= MAXFILE * BSIZE
    requires m > 0 && off % BSIZE + m <= BSIZE && (off % BSIZE + m == BSIZE || off + m == off0 + |src|)
    requires BmapStep(g, fs1, fs2, i, NBlocks(Max(fs0.inodes[i].size, off)), off / BSIZE, r)
    requires WrittenTo(g, fs0, fs1, i, off0, off, src)
    requires p < Max(fs0.inodes[i].size, off + m) && p < MAXFILE * BSIZE
    ensures r < g.size
    ensures var fs3 := WithBlock(fs2, r, Patched(fs2.blocks[r], off % BSIZE, src, off - off0, m));
            && Shape(g, fs3)
            && ByteAt(g, fs3, i, p) == if off0 <= p < off + m then src[p - off0] else ByteAt(g, fs0, i, p)
  {
    hide Owned, Grown, Slot;
    var size, bn, cnt := fs0.inodes[i].size, off / BSIZE, NBlocks(Max(fs0.inodes[i].size, off));
    BmapStepOk(g, fs1, fs2, i, cnt, bn, r);
    var data := Patched(fs2.blocks[r], off % BSIZE, src, off - off0, m);
    assert p / BSIZE < Max(cnt, bn + 1);
    assert Slot(g, fs2, i, SlotOf(p / BSIZE)) != 0;
    DataWriteBytes(g, fs2, i, bn, data, i, p);
    if p < Max(size, off) {
      assert p / BSIZE < cnt;
      assert Slot(g, fs1, i, SlotOf(p / BSIZE)) != 0;
      assert ByteAt(g, fs2, i, p) == ByteAt(g, fs1, i, p);
    }
  }

  /** A file with src stored from off on, grown if it reaches past the end. */
  function Overwritten(c: seq<Byte>, off: nat, src: seq<Byte>): (c': seq<Byte>)
    requires off <= |c|
    ensures |c'| == Max(|c|, off + |src|)
    ensures forall p :: 0 <= p < |c'| ==> c'[p] == if off <= p < off + |src| then src[p - off] else c[p]
  {
    if off + |src| <= |c| then c[..off] + src + c[off + |src|..] else c[..off] + src
  }

  /** Recording the size that the mapped blocks call for makes the file system sound again. */
  lemma ResizedOk(g: Super, fs: Fs, i: nat, size: nat)
    requires OkBut(g, fs, i, NBlocks(size))
    ensures FsOk(g, WithSize(fs, i, size))
    ensures forall j: nat, p: nat {:trigger ByteAt(g, WithSize(fs, i, size), j, p)} ::
              j < g.ninodes && p < MAXFILE * BSIZE ==>
              ByteAt(g, WithSize(fs, i, size), j, p) == ByteAt(g, fs, j, p)
  {
    var fs' := WithSize(fs, i, size);
    forall j: nat, l: nat | j < g.ninodes && l < NSLOTS
      ensures Slot(g, fs', j, l) == Slot(g, fs, j, l)
    {
    }
    SameSlotsOk(g, fs, fs', i, NBlocks(size));
    forall j: nat | j < g.ninodes
      ensures Mapped(g, fs', j, NBlocks(fs'.inodes[j].size))
    {
      if j != i { assert fs'.inodes[j] == fs.inodes[j]; }
    }
  }

  lemma WrittenContent(g: Super, fs0: Fs, fs: Fs, i: nat, off: nat, src: seq<Byte>)
    requires FsOk(g, fs0) && i < g.ninodes && OkBut(g, fs, i, NBlocks(Max(fs0.inodes[i].size, off + |src|)))
    requires off <= fs0.inodes[i].size <= MAXFILE * BSIZE && off + |src| <= MAXFILE * BSIZE
    requires WrittenTo(g, fs0, fs, i, off, off + |src|, src) && OthersKept(g, fs0, fs, i)
    ensures var fs' := WithSize(fs, i, Max(fs0.inodes[i].size, off + |src|));
            && FsOk(g, fs') && OthersKept(g, fs0, fs', i)
            && Content(g, fs', i) == Overwritten(Content(g, fs0, i), off, src)
  {
    var size := Max(fs0.inodes[i].size, off + |src|);
    var fs' := WithSize(fs, i, size);
    ResizedOk(g, fs, i, size);
    hide Owned, Mapped, ByteAt;
    forall p | 0 <= p < size
      ensures Content(g, fs', i)[p] == Overwritten(Content(g, fs0, i), off, src)[p]
    {
      assert ByteAt(g, fs', i, p) == ByteAt(g, fs, i, p);
    }
    forall j: nat | j < g.ninodes && j != i
      ensures fs'.inodes[j] == fs0.inodes[j]
    {
      assert fs.inodes[j] == fs0.inodes[j];
    }
  }

  function WithSize(fs: Fs, i: nat, size: nat): Fs
    requires i < |fs.inodes|
  {
    Fs(fs.bitmap, fs.blocks, fs.inodes[i := Inode(fs.inodes[i].typ, size, fs.inodes[i].addrs)])
  }

  /** A file's size never exceeds what its slots can map. */
  lemma SizeBound(g: Super, fs: Fs, i: nat)
    requires FsOk(g, fs) && i < g.ninodes
    ensures fs.inodes[i].size <= MAXFILE * BSIZE
  {
    assert Mapped(g, fs, i, NBlocks(fs.inodes[i].size));
  }

  lemma OthersSameContent(g: Super, fs: Fs, fs': Fs, i: nat, j: nat)
    requires FsOk(g, fs) && FsOk(g, fs') && OthersKept(g, fs, fs', i) && j < g.ninodes && j != i
    ensures fs.inodes[j].size <= MAXFILE * BSIZE && fs'.inodes[j] == fs.inodes[j]
    ensures Content(g, fs', j) == Content(g, fs, j)
  {
    SizeBound(g, fs, j);
    assert fs'.inodes[j] == fs.inodes[j];
    forall p | 0 <= p < fs.inodes[j].size
      ensures Content(g, fs', j)[p] == Content(g, fs, j)[p]
    {
      assert ByteAt(g, fs', j, p) == ByteAt(g, fs, j, p);
    }
  }

  /** Storing m bytes at off maps at most the block of off in addition. */
  lemma BlocksStep(size: nat, off: nat, m: nat)
    requires m > 0 && off % BSIZE + m <= BSIZE
    ensures NBlocks(Max(size, off + m)) == Max(NBlocks(Max(size, off)), off / BSIZE + 1)
    ensures off / BSIZE <= NBlocks(Max(size, off))
    ensures off / BSIZE == NBlocks(Max(size, off)) ==> off % BSIZE == 0 && off >= size
  {
  }

  /** writei has stored the bytes of src up to file offset off. */
  ghost predicate Progress(g: Super, fs0: Fs, fs: Fs, i: nat, off0: nat, off: nat, src: seq<Byte>) {
    && FsOk(g, fs0) && i < g.ninodes
    && off0 <= fs0.inodes[i].size <= MAXFILE * BSIZE && off0 <= off <= off0 + |src| <= MAXFILE * BSIZE
    && OkBut(g, fs, i, NBlocks(Max(fs0.inodes[i].size, off)))
    && WrittenTo(g, fs0, fs, i, off0, off, src) && OthersKept(g, fs0, fs, i)
    && fs.inodes[i].typ == fs0.inodes[i].typ && fs.inodes[i].size == fs0.inodes[i].size
  }

  lemma ProgressStart(g: Super, fs: Fs, i: nat, off: nat, src: seq<Byte>)
    requires FsOk(g, fs) && i < g.ninodes && off <= fs.inodes[i].size && off + |src| <= MAXFILE * BSIZE
    ensures Progress(g, fs, fs, i, off, off, src)
  {
    SizeBound(g, fs, i);
  }

  lemma ProgressStep(g: Super, fs0: Fs, fs1: Fs, fs2: Fs, i: nat, off0: nat, off: nat, m: nat, src: seq<Byte>, r: nat)
    requires Progress(g, fs0, fs1, i, off0, off, src)
    requires m > 0 && off + m <= off0 + |src|
    requires off % BSIZE + m <= BSIZE && (off % BSIZE + m == BSIZE || off + m == off0 + |src|)
    requires BmapStep(g, fs1, fs2, i, NBlocks(Max(fs0.inodes[i].size, off)), off / BSIZE, r)
    ensures r < |fs2.blocks|
    ensures var fs3 := WithBlock(fs2, r, Patched(fs2.blocks[r], off % BSIZE, src, off - off0, m));
            Progress(g, fs0, fs3, i, off0, off + m, src)
  {
    hide Owned, Mapped, Grown, WrittenTo, OthersKept, NBlocks, FsOk;
    ProgressShape(g, fs0, fs1, i, off0, off, src);
    var cnt, bn := NBlocks(Max(fs0.inodes[i].size, off)), off / BSIZE;
    BlocksStep(fs0.inodes[i].size, off, m);
    BmapStepOk(g, fs1, fs2, i, cnt, bn, r);
    PieceKeepsOthers(g, fs0, fs1, fs2, i, cnt, bn, r, Patched(fs2.blocks[r], off % BSIZE, src, off - off0, m));
    PieceWritten(g, fs0, fs1, fs2, i, off0, off, m, src, r);
    assert fs2.inodes[i].size == fs1.inodes[i].size;
  }

  lemma ProgressDone(g: Super, fs0: Fs, fs: Fs, i: nat, off: nat, src: seq<Byte>)
    requires Progress(g, fs0, fs, i, off, off + |src|, src)
    ensures Shape(g, fs0) && Shape(g, fs)
    ensures var fs' := WithSize(fs, i, Max(fs0.inodes[i].size, off + |src|));
            && FsOk(g, fs') && OthersKept(g, fs0, fs', i)
            && Content(g, fs', i) == Overwritten(Content(g, fs0, i), off, src)
  {
    WrittenContent(g, fs0, fs, i, off, src);
  }

  lemma ProgressShape(g: Super, fs0: Fs, fs: Fs, i: nat, off0: nat, off: nat, src: seq<Byte>)
    requires Progress(g, fs0, fs, i, off0, off, src)
    ensures Shape(g, fs0) && Shape(g, fs) && i < g.ninodes && Owned(g, fs)
    ensures off0 <= off <= off0 + |src| <= MAXFILE * BSIZE
    ensures fs.inodes[i].size == fs0.inodes[i].size <= MAXFILE * BSIZE && fs.inodes[i].typ == fs0.inodes[i].typ
    ensures off < MAXFILE * BSIZE ==>
              (Slot(g, fs, i, SlotOf(off / BSIZE)) != 0 <==> off / BSIZE < NBlocks(Max(fs0.inodes[i].size, off)))
  {
  }

  lemma MakeBmapStep(g: Super, fs0: Fs, fs: Fs, fs': Fs, i: nat, off0: nat, off: nat, src: seq<Byte>, r: nat)
    requires Progress(g, fs0, fs, i, off0, off, src) && off < MAXFILE * BSIZE
    requires var bn := off / BSIZE;
             if Slot(g, fs, i, SlotOf(bn)) != 0 then fs' == fs && r == Slot(g, fs, i, SlotOf(bn))
             else Grown(g, fs, fs', i, bn, r)
    ensures BmapStep(g, fs, fs', i, NBlocks(Max(fs0.inodes[i].size, off)), off / BSIZE, r)
  {
    ProgressShape(g, fs0, fs, i, off0, off, src);
    BlocksStep(fs0.inodes[i].size, off, 1);
  }

  // ---- how many blocks a write logs --------------------------------------------------------------------------

  /** The indirect block and its bitmap block. */
  ghost function TableBlocks(g: Super, fs: Fs, i: nat): (t: set<nat>)
    requires Shape(g, fs) && i < g.ninodes
    ensures |t| <= 2
  {
    if Slot(g, fs, i, NDIRECT) == 0 then {} else {Slot(g, fs, i, NDIRECT), g.BBlock(Slot(g, fs, i, NDIRECT))}
  }

  /** Blocks touched by the first tot bytes from off on. */
  function Touched(off: nat, tot: nat): int {
    if tot == 0 then 0 else (off + tot - 1) / BSIZE - off / BSIZE + 1
  }

  /** Of these, the blocks a file of this size does not have yet. */
  function Fresh(off: nat, tot: nat, size: nat): int {
    if tot == 0 || (off + tot - 1) / BSIZE + 1 <= Max(off / BSIZE, NBlocks(size)) then 0
    else (off + tot - 1) / BSIZE + 1 - Max(off / BSIZE, NBlocks(size))
  }

  lemma CountStep(off0: nat, tot: nat, m: nat, size: nat)
    requires m > 0 && (off0 + tot) % BSIZE + m <= BSIZE && off0 <= size
    requires tot > 0 ==> (off0 + tot) % BSIZE == 0
    ensures Touched(off0, tot + m) == Touched(off0, tot) + 1
    ensures Fresh(off0, tot, size) <= Fresh(off0, tot + m, size)
    ensures (off0 + tot) % BSIZE == 0 && off0 + tot >= size ==> Fresh(off0, tot + m, size) == Fresh(off0, tot, size) + 1
  {
  }

  /** What a file operation on inode i leaves: its new contents, and every other file as it was. */
  ghost predicate FileBecomes(g: Super, fs: Fs, fs': Fs, i: nat, c: seq<Byte>) {
    && FsOk(g, fs) && FsOk(g, fs') && i < g.ninodes
    && fs'.inodes[i].typ == fs.inodes[i].typ
    && fs'.inodes[i].size <= MAXFILE * BSIZE && Content(g, fs', i) == c
    && (forall j: nat {:trigger fs'.inodes[j]} :: j < g.ninodes && j != i ==>
          && fs'.inodes[j] == fs.inodes[j]
          && fs.inodes[j].size <= MAXFILE * BSIZE && Content(g, fs', j) == Content(g, fs, j))
  }

  lemma WriteBecomes(g: Super, fs0: Fs, fs: Fs, fs': Fs, i: nat, off: nat, src: seq<Byte>)
    requires Progress(g, fs0, fs, i, off, off + |src|, src)
    requires Shape(g, fs) && fs' == WithSize(fs, i, Max(fs0.inodes[i].size, off + |src|))
    ensures fs0.inodes[i].size <= MAXFILE * BSIZE && off <= fs0.inodes[i].size
    ensures FileBecomes(g, fs0, fs', i, Overwritten(Content(g, fs0, i), off, src))
  {
    ProgressDone(g, fs0, fs, i, off, src);
    forall j: nat | j < g.ninodes && j != i
      ensures fs'.inodes[j] == fs0.inodes[j] && fs0.inodes[j].size <= MAXFILE * BSIZE
      ensures Content(g, fs', j) == Content(g, fs0, j)
    {
      OthersSameContent(g, fs0, fs', i, j);
    }
  }

  lemma TruncBecomes(g: Super, fs: Fs, fs': Fs, i: nat)
    requires FsOk(g, fs) && Truncated(g, fs, fs', i)
    ensures FileBecomes(g, fs, fs', i, [])
  {
    TruncatedOk(g, fs, fs', i, NBlocks(fs.inodes[i].size));
    forall j: nat | j < g.ninodes && j != i
      ensures fs'.inodes[j] == fs.inodes[j] && fs.inodes[j].size <= MAXFILE * BSIZE
      ensures Content(g, fs', j) == Content(g, fs, j)
    {
      SizeBound(g, fs, j);
    }
  }

  // ---- the loops of itrunc ------------------------------------------------------------------------------------

  function Cleared(a: Addrs, n: nat): Addrs {
    seq(NDIRECT + 1, k requires 0 <= k < NDIRECT + 1 => if k < n then 0 else a[k])
  }

  /** Slots below a, and indirect entries below slot e. */
  ghost predicate InFreed(g: Super, fs: Fs, i: nat, a: nat, e: nat, b: nat)
    requires Shape(g, fs) && i < g.ninodes && a <= NDIRECT + 1 && e <= NSLOTS
  {
    b != 0 && exists k: nat :: k < NSLOTS && (k < a || NDIRECT < k < e) && Slot(g, fs, i, k) == b
  }

  /** The bitmap with exactly those slots' blocks given back. */
  ghost predicate Freed(g: Super, fs: Fs, bits: seq<bool>, i: nat, a: nat, e: nat) {
    && Shape(g, fs) && i < g.ninodes && a <= NDIRECT + 1 && e <= NSLOTS && |bits| == g.size
    && forall b: nat {:trigger bits[b]} :: b < g.size ==> (bits[b] <==> fs.bitmap[b] && !InFreed(g, fs, i, a, e, b))
  }

  /** ... and slot k's block as well. */
  ghost predicate FreedAlso(g: Super, fs: Fs, bits: seq<bool>, i: nat, a: nat, e: nat, k: nat) {
    && Shape(g, fs) && i < g.ninodes && a <= NDIRECT + 1 && e <= NSLOTS && |bits| == g.size && k < NSLOTS
    && forall b: nat {:trigger bits[b]} :: b < g.size ==>
         (bits[b] <==> fs.bitmap[b] && !InFreed(g, fs, i, a, e, b) && (b == 0 || b != Slot(g, fs, i, k)))
  }

  lemma FreedNone(g: Super, fs: Fs, i: nat)
    requires Shape(g, fs) && i < g.ninodes
    ensures Freed(g, fs, fs.bitmap, i, 0, 0)
  {
  }

  lemma SlotNotFreedYet(g: Super, fs: Fs, bits: seq<bool>, i: nat, a: nat, e: nat, k: nat)
    requires Owned(g, fs) && Freed(g, fs, bits, i, a, e) && k < NSLOTS && !(k < a || NDIRECT < k < e)
    requires Slot(g, fs, i, k) != 0
    ensures Slot(g, fs, i, k) < g.size && bits[Slot(g, fs, i, k)]
  {
    assert SlotAllocated(g, fs, i, k);
    forall l: nat | l < NSLOTS && (l < a || NDIRECT < l < e)
      ensures Slot(g, fs, i, l) != Slot(g, fs, i, k)
    {
      assert SlotsDistinct(g, fs, i, k, i, l);
    }
  }

  lemma FreedOne(g: Super, fs: Fs, bits: seq<bool>, i: nat, a: nat, e: nat, k: nat)
    requires Freed(g, fs, bits, i, a, e) && k < NSLOTS && 0 < Slot(g, fs, i, k) < g.size
    ensures FreedAlso(g, fs, bits[Slot(g, fs, i, k) := false], i, a, e, k)
  {
  }

  lemma FreedZero(g: Super, fs: Fs, bits: seq<bool>, i: nat, a: nat, e: nat, k: nat)
    requires Freed(g, fs, bits, i, a, e) && k < NSLOTS && Slot(g, fs, i, k) == 0
    ensures FreedAlso(g, fs, bits, i, a, e, k)
  {
  }

  /** The next slot below a, ... */
  lemma FreedNextAddr(g: Super, fs: Fs, bits: seq<bool>, i: nat, a: nat, e: nat)
    requires FreedAlso(g, fs, bits, i, a, e, a) && a <= NDIRECT
    ensures Freed(g, fs, bits, i, a + 1, e)
  {
    forall b: nat | b < g.size
      ensures InFreed(g, fs, i, a + 1, e, b) <==> InFreed(g, fs, i, a, e, b) || (b != 0 && b == Slot(g, fs, i, a))
    {
    }
  }

  /** ... or the next entry of the indirect block. */
  lemma FreedNextEntry(g: Super, fs: Fs, bits: seq<bool>, i: nat, a: nat, e: nat)
    requires FreedAlso(g, fs, bits, i, a, e, e) && NDIRECT < e
    ensures Freed(g, fs, bits, i, a, e + 1)
  {
    forall b: nat | b < g.size
      ensures InFreed(g, fs, i, a, e + 1, b) <==> InFreed(g, fs, i, a, e, b) || (b != 0 && b == Slot(g, fs, i, e))
    {
    }
  }

  lemma FreedEntries(g: Super, fs: Fs, bits: seq<bool>, i: nat)
    requires Freed(g, fs, bits, i, NDIRECT, 0)
    ensures Freed(g, fs, bits, i, NDIRECT, NDIRECT + 1)
  {
    forall b: nat | b < g.size
      ensures InFreed(g, fs, i, NDIRECT, NDIRECT + 1, b) <==> InFreed(g, fs, i, NDIRECT, 0, b)
    {
    }
  }

  lemma FreedAll(g: Super, fs: Fs, bits: seq<bool>, i: nat, t: nat)
    requires Shape(g, fs) && i < g.ninodes && t == Slot(g, fs, i, NDIRECT)
    requires if t == 0 then Freed(g, fs, bits, i, NDIRECT, 0) else Freed(g, fs, bits, i, NDIRECT + 1, NSLOTS)
    ensures forall b: nat {:trigger bits[b]} :: b < g.size ==>
              (bits[b] <==> fs.bitmap[b] && !InSlots(g, fs, i, NSLOTS, b))
  {
    forall b: nat | b < g.size
      ensures InSlots(g, fs, i, NSLOTS, b) <==>
              if t == 0 then InFreed(g, fs, i, NDIRECT, 0, b) else InFreed(g, fs, i, NDIRECT + 1, NSLOTS, b)
    {
    }
  }

  // ---- consecutive writes ----------------------------------------------------------------------------------------

  lemma BecomesSelf(g: Super, fs: Fs, i: nat)
    requires FsOk(g, fs) && i < g.ninodes
    ensures fs.inodes[i].size <= MAXFILE * BSIZE && FileBecomes(g, fs, fs, i, Content(g, fs, i))
  {
    SizeBound(g, fs, i);
    forall j: nat | j < g.ninodes
      ensures fs.inodes[j].size <= MAXFILE * BSIZE
    {
      SizeBound(g, fs, j);
    }
  }

  lemma BecomesContent(g: Super, fs: Fs, fs': Fs, i: nat, c: seq<Byte>)
    requires FileBecomes(g, fs, fs', i, c)
    ensures FsOk(g, fs) && FsOk(g, fs') && i < g.ninodes && fs'.inodes[i].typ == fs.inodes[i].typ
    ensures fs'.inodes[i].size <= MAXFILE * BSIZE && Content(g, fs', i) == c
  {
  }

  lemma BecomesTwice(g: Super, fs0: Fs, fs1: Fs, fs2: Fs, i: nat)
    requires i < g.ninodes && Shape(g, fs1) && Shape(g, fs2)
    requires fs1.inodes[i].size <= MAXFILE * BSIZE && FileBecomes(g, fs0, fs1, i, Content(g, fs1, i))
    requires fs2.inodes[i].size <= MAXFILE * BSIZE && FileBecomes(g, fs1, fs2, i, Content(g, fs2, i))
    ensures FileBecomes(g, fs0, fs2, i, Content(g, fs2, i))
  {
    forall j: nat | j < g.ninodes && j != i
      ensures fs2.inodes[j] == fs0.inodes[j] && fs0.inodes[j].size <= MAXFILE * BSIZE
      ensures Content(g, fs2, j) == Content(g, fs0, j)
    {
      assert fs1.inodes[j] == fs0.inodes[j] && fs2.inodes[j] == fs1.inodes[j];
    }
  }

  /** Writing two adjacent pieces is writing their concatenation. */
  lemma OverwrittenTwice(c: seq<Byte>, off: nat, src: seq<Byte>, pos: nat, n: nat)
    requires off <= |c| && pos + n <= |src|
    ensures Overwritten(if pos == 0 then c else Overwritten(c, off, src[..pos]), off + pos, src[pos..pos + n])
            == Overwritten(c, off, src[..pos + n])
  {
  }
}
