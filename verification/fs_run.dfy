/** Runs of file operations on any set of inodes: the files stay byte sequences, and block ownership stays exact. */
module FsRun {
  import opened Common
  import opened FsState
  import opened FileSys

  datatype Op = Write(i: nat, off: nat, src: seq<Byte>) | Trunc(i: nat)

  /** The files as the user sees them. */
  ghost function Files(g: Super, fs: Fs): (f: seq<seq<Byte>>)
    requires FsOk(g, fs)
    ensures |f| == g.ninodes
  {
    seq(g.ninodes, i requires 0 <= i < g.ninodes => FileOf(g, fs, i))
  }

  ghost function FileOf(g: Super, fs: Fs, i: nat): seq<Byte>
    requires FsOk(g, fs) && i < g.ninodes
  {
    SizeBound(g, fs, i);
    Content(g, fs, i)
  }

  /** writei's checks. */
  predicate Accepts(c: seq<Byte>, off: nat, src: seq<Byte>) {
    off <= |c| && off + |src| < UINT && off + |src| <= MAXFILE * BSIZE
  }

  function Step(files: seq<seq<Byte>>, op: Op): (f: seq<seq<Byte>>)
    requires op.i < |files|
    ensures |f| == |files|
  {
    match op
    case Write(i, off, src) =>
      if Accepts(files[i], off, src) then files[i := Overwritten(files[i], off, src)] else files
    case Trunc(i) => files[i := []]
  }

  function After(files: seq<seq<Byte>>, ops: seq<Op>): (f: seq<seq<Byte>>)
    requires forall k :: 0 <= k < |ops| ==> ops[k].i < |files|
    ensures |f| == |files|
  {
    if ops == [] then files else Step(After(files, ops[..|ops| - 1]), ops[|ops| - 1])
  }

  lemma BecomesFiles(g: Super, fs: Fs, fs': Fs, i: nat, c: seq<Byte>)
    requires FileBecomes(g, fs, fs', i, c)
    ensures FsOk(g, fs) && FsOk(g, fs') && Files(g, fs') == Files(g, fs)[i := c]
  {
    forall j | 0 <= j < g.ninodes
      ensures FileOf(g, fs', j) == if j == i then c else FileOf(g, fs, j)
    {
      SizeBound(g, fs, j);
      assert j != i ==> fs'.inodes[j] == fs.inodes[j];
    }
  }

  /** Any run of writes and truncations changes the files as it would change byte sequences, and leaves the file system
      sound and every inode on disk; it stops early only if the disk is full. */
  method Run(f: FileSystem, ops: seq<Op>) returns (full: bool)
    requires f.Valid()
    requires forall k :: 0 <= k < |ops| ==> ops[k].i < f.sb.ninodes && f.inodes[ops[k].i].typ != Dev
    requires forall k :: 0 <= k < |ops| && ops[k].Write? ==> ops[k].off < UINT && |ops[k].src| < UINT
    modifies f.bitmap, f.blocks, f.inodes, f.dinodes, f`logged
    ensures full ==> forall b :: 0 <= b < f.sb.size ==> f.bitmap[b]
    ensures !full ==> f.Valid() && Files(f.sb, f.St()) == After(old(Files(f.sb, f.St())), ops)
  {
    hide FsOk, Files, Step;
    ghost var files := Files(f.sb, f.St());
    assert ops[..0] == [];
    for k := 0 to |ops|
      invariant f.Valid() && Files(f.sb, f.St()) == After(files, ops[..k])
      invariant forall l :: 0 <= l < |ops| ==> f.inodes[ops[l].i].typ != Dev
    {
      assert ops[..k + 1][..k] == ops[..k];
      full := Perform(f, ops[k]);
      if full {
        return;
      }
    }
    assert ops[..|ops|] == ops;
    full := false;
  }

  /** One operation. */
  method Perform(f: FileSystem, op: Op) returns (full: bool)
    requires f.Valid() && op.i < f.sb.ninodes && f.inodes[op.i].typ != Dev
    requires op.Write? ==> op.off < UINT && |op.src| < UINT
    modifies f.bitmap, f.blocks, f.inodes, f.dinodes, f`logged
    ensures full ==> forall b :: 0 <= b < f.sb.size ==> f.bitmap[b]
    ensures !full ==> f.Valid() && Files(f.sb, f.St()) == Step(old(Files(f.sb, f.St())), op)
    ensures !full ==> forall j :: 0 <= j < f.inodes.Length ==> f.inodes[j].typ == old(f.inodes[j].typ)
  {
    hide FsOk, FileBecomes, Overwritten, Files;
    ghost var fs := f.St();
    full := false;
    match op
    case Write(i, off, src) =>
      FileOfFile(f.sb, fs, i);
      var r, _ := f.Writei(i, off, src);
      if r.OutOfBlocks? {
        return true;
      }
      if r.Wrote? {
        BecomesFiles(f.sb, fs, f.St(), i, Overwritten(Content(f.sb, fs, i), off, src));
        TypesKept(f.sb, fs, f.St(), i, Overwritten(Content(f.sb, fs, i), off, src));
      }
    case Trunc(i) =>
      f.Itrunc(i);
      BecomesFiles(f.sb, fs, f.St(), i, []);
      TypesKept(f.sb, fs, f.St(), i, []);
  }

  lemma FileOfFile(g: Super, fs: Fs, i: nat)
    requires FsOk(g, fs) && i < g.ninodes
    ensures Shape(g, fs) && fs.inodes[i].size <= MAXFILE * BSIZE
    ensures Files(g, fs)[i] == Content(g, fs, i) && |Files(g, fs)[i]| == fs.inodes[i].size
  {
    SizeBound(g, fs, i);
    assert Files(g, fs)[i] == FileOf(g, fs, i);
  }

  lemma TypesKept(g: Super, fs: Fs, fs': Fs, i: nat, c: seq<Byte>)
    requires FileBecomes(g, fs, fs', i, c)
    ensures |fs'.inodes| == |fs.inodes| == g.ninodes
    ensures forall j :: 0 <= j < g.ninodes ==> fs'.inodes[j].typ == fs.inodes[j].typ
  {
    forall j | 0 <= j < g.ninodes
      ensures fs'.inodes[j].typ == fs.inodes[j].typ
    {
      assert j != i ==> fs'.inodes[j] == fs.inodes[j];
    }
  }

  /** A block past the metadata is in use iff some slot of some inode names it, and then only one does. */
  lemma InUseIffOneSlot(g: Super, fs: Fs, b: nat)
    requires FsOk(g, fs) && b < g.size
    ensures fs.bitmap[b] <==> b < g.nmeta || HasOwner(g, fs, b)
    ensures forall i: nat, k: nat, j: nat, l: nat :: i < g.ninodes && k < NSLOTS && j < g.ninodes && l < NSLOTS ==>
              b != 0 && Slot(g, fs, i, k) == b && Slot(g, fs, j, l) == b ==> i == j && k == l
  {
    if b >= g.nmeta && HasOwner(g, fs, b) {
      var i: nat, k: nat :| i < g.ninodes && k < NSLOTS && Slot(g, fs, i, k) == b;
      assert SlotAllocated(g, fs, i, k);
    }
    forall i: nat, k: nat, j: nat, l: nat | i < g.ninodes && k < NSLOTS && j < g.ninodes && l < NSLOTS && b != 0
        && Slot(g, fs, i, k) == b && Slot(g, fs, j, l) == b
      ensures i == j && k == l
    {
      assert SlotsDistinct(g, fs, i, k, j, l);
    }
  }
}
