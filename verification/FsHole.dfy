/** A file system that mkfs makes with a hole in its root directory, and what reading and
    writing there loses. */
module FsHole {
  import opened FsSpec
  import opened FsFile
  import opened FsAlloc
  import opened FsCost
  import opened FsCode
  import opened Mkfs

  const ROOTINO: nat := 1

  /** Block 1 of the root directory lies within its size of two blocks and is not there, and
      there are free blocks. */
  ghost predicate RootHole(g: Image) {
    && Shape(g) && ROOTINO < |g.inodes| && g.inodes[ROOTINO].size == 1024
    && g.inodes[ROOTINO].addrs[1] == 0 && FreeCount(g) > 0
  }

  /** `struct dirent` for inode `inum` with a name of at most two characters. */
  function DirentBytes(inum: Byte, c0: Byte, c1: Byte): (de: seq<Byte>)
    ensures |de| == 16
  {
    [inum, 0, c0, c1] + seq(12, _ => 0)
  }

  /** An entry that begins in the first block needs at most that block. */
  lemma OneBlockNeeded(g: Image, n: nat)
    requires Shape(g) && n < |g.inodes| && g.inodes[n].size < 512 && g.inodes[n].size % 16 == 0
    ensures AppendNeed(g, n, 16) <= 1
  {
    assert Need(g, n, 0, 0) == 0;
    assert After(g.inodes[n].size, 16) == 1;
  }

  lemma LastIsFree(g: Image, used: nat)
    requires Shape(g) && used < |g.blocks| && forall b: nat | b < |g.blocks| :: Used(g.bitmap, b) <==> b < used
    ensures FreeCount(g) > 0
  {
    hide Used;
    assert |g.blocks| - 1 in FreeBlocks(g.bitmap, |g.blocks|);
  }

  /** A root directory of `entries` entries and nothing else in the image. */
  ghost predicate Listing(b: Builder, root: nat, entries: nat)
    reads b
  {
    && b.Valid() && Shape(b.Img()) && root < b.freeinode == entries <= |b.inodes| == 200 && |b.blocks| == 1000
    && b.inodes[root].size == 16 * entries && Exact(b.Img(), root) && b.freeblock <= 59 + entries
  }

  /** iappend of one entry to the root directory. */
  method AddEntry(b: Builder, root: nat, de: seq<Byte>, ghost entries: nat)
    requires |de| == 16 && entries < 32
    requires b.Valid() && Shape(b.Img()) && root < b.freeinode <= |b.inodes| == 200 && |b.blocks| == 1000
    requires b.inodes[root].size == 16 * entries && Exact(b.Img(), root) && b.freeblock <= 59 + entries
    modifies b
    ensures b.Valid() && Shape(b.Img()) && root < |b.inodes| == 200 && |b.blocks| == 1000
    ensures b.inodes[root].size == 16 * (entries + 1) && Exact(b.Img(), root) && b.freeblock <= 60 + entries
    ensures b.freeinode == old(b.freeinode)
  {
    hide FsOk, Exact, Packed, Unborn, AppendNeed, WriteDone, Shape;
    ghost var g := b.Img();
    OneBlockNeeded(g, root);
    var ok := b.Iappend(root, de);
    HasShape(b.Img(), b.owner);
    SizeWritten(g, b.Img(), root, de);
  }

  /** A new inode leaves the other files alone. */
  lemma OthersExact(g: Image, r: Image, n: nat)
    requires Shape(g) && Shape(r) && n < |g.inodes| == |r.inodes| && Exact(g, n)
    requires r.blocks == g.blocks && r.inodes[n] == g.inodes[n]
    ensures Exact(r, n)
  {
    forall bn: nat | bn < MAXFILE
      ensures BlockOf(r, n, bn) == BlockOf(g, n, bn)
    {
    }
    hide BlockOf;
  }

  /** mkfs with 30 files, which with the two dots are 32 entries and fill one block: rounding up
      the size gives the root directory a second block that is not there. */
  method RootWithHole() returns (b: Builder, bm: Bitmap)
    ensures FsOk(Image(b.nmeta, bm, b.blocks, b.inodes), b.owner)
    ensures RootHole(Image(b.nmeta, bm, b.blocks, b.inodes))
  {
    hide FsOk, Exact, Used, Packed, Unborn, FreeCount, HoleFree;
    b := new Builder(59, 1000, 200);
    var root := b.Ialloc(1);
    HasShape(b.Img(), b.owner);
    AddEntry(b, root, DirentBytes(1, 46, 0), 0);
    AddEntry(b, root, DirentBytes(1, 46, 46), 1);
    var i: Byte := 2;
    while i < 32
      invariant 2 <= i <= 32 && root == ROOTINO && Listing(b, root, i as nat)
    {
      ghost var g := b.Img();
      var inum := b.Ialloc(2);
      HasShape(b.Img(), b.owner);
      OthersExact(g, b.Img(), root);
      AddEntry(b, root, DirentBytes(i, 64 + i, 0), i as nat);
      i := i + 1;
    }
    bm := b.Finish(root);
    ghost var g := Image(b.nmeta, bm, b.blocks, b.inodes);
    HasShape(g, b.owner);
    LastIsFree(g, b.freeblock);
  }

  lemma SizeWritten(g: Image, r: Image, n: nat, data: seq<Byte>)
    requires Shape(g) && n < |g.inodes| && g.inodes[n].size <= MAXBYTES && WriteDone(g, r, n, g.inodes[n].size, data)
    ensures |r.inodes| == |g.inodes| && r.inodes[n].size == g.inodes[n].size + |data|
  {
    assert |Content(r, n)| == |Written(Content(g, n), g.inodes[n].size, data)|;
  }

  /** What 16 bytes in the hole need. */
  lemma HoleNeeds(g: Image)
    requires RootHole(g)
    ensures Need(g, ROOTINO, Bn(512), After(512, 16)) == 1 && Missing(g.inodes[ROOTINO], 512, 528)
  {
    assert Need(g, ROOTINO, 1, 1) == 0;
    assert BlockOf(g, ROOTINO, 1) == 0;
    assert InRange(1, 512, 528) && AddrMissing(g.inodes[ROOTINO], 1);
  }

  /** Reading an entry there, inside an operation, gives the directory a block that the inode on disk does not know. */
  method ReadInHole() returns (r: ReadResult, memory: Inode, disk: Inode)
    ensures r.Got? && r.bytes == seq(16, _ => 0) && memory != disk
  {
    hide FsOk, RootHole, SameBytes, OnlyAdds, RangeBacked, Missing, Need, After, FreeCount, Content;
    var b, bm := RootWithHole();
    var fs := new Fs(b.nmeta, bm, b.blocks, b.inodes, true, b.owner);
    ghost var g := fs.Img();
    RootHoleMeans(g);
    HoleNeeds(g);
    HoleIsZero(g);
    r := fs.Readi(ROOTINO, 512, 16);
    memory, disk := fs.inodes[ROOTINO], fs.dinodes[ROOTINO];
  }

  /** Outside an operation, as fileread calls readi, it panics instead. */
  method ReadHoleOutside() returns (r: ReadResult)
    ensures r == ReadPanic
  {
    hide FsOk, RootHole, SameBytes, OnlyAdds, RangeBacked, Missing, Need, After, FreeCount, Content;
    var b, bm := RootWithHole();
    var fs := new Fs(b.nmeta, bm, b.blocks, b.inodes, false, b.owner);
    RootHoleMeans(fs.Img());
    HoleNeeds(fs.Img());
    r := fs.Readi(ROOTINO, 512, 16);
  }

  lemma RootHoleMeans(g: Image)
    requires RootHole(g)
    ensures Shape(g) && ROOTINO < |g.inodes| && g.inodes[ROOTINO].size == 1024 && FreeCount(g) > 0
  {
  }

  lemma HoleIsZero(g: Image)
    requires RootHole(g)
    ensures Content(g, ROOTINO)[512..528] == seq(16, _ => 0)
  {
    forall k | 512 <= k < 528
      ensures ByteAt(g, ROOTINO, k) == 0
    {
      assert Bn(k) == 1;
    }
  }

  /** Writing an entry there does the same: the file does not grow, so the inode is not
      written. */
  method WriteInHole() returns (r: WriteResult, memory: Inode, disk: Inode)
    ensures r == Wrote && memory != disk
  {
    hide FsOk, RootHole, WriteDone, HoleFree, RangeBacked, Missing, Need, After, FreeCount;
    var b, bm := RootWithHole();
    var fs := new Fs(b.nmeta, bm, b.blocks, b.inodes, true, b.owner);
    ghost var g := fs.Img();
    RootHoleMeans(g);
    HoleNeeds(g);
    r := fs.Writei(ROOTINO, 512, seq(16, _ => 0));
    SameCount(g, fs.Img(), seq(16, _ => 0));
    memory, disk := fs.inodes[ROOTINO], fs.dinodes[ROOTINO];
  }

  lemma SameCount(g: Image, r: Image, src: seq<Byte>)
    requires Shape(g) && ROOTINO < |g.inodes| && 512 <= g.inodes[ROOTINO].size <= MAXBYTES
      && WriteDone(g, r, ROOTINO, 512, src)
    ensures |r.inodes| == |g.inodes|
  {
  }
}
