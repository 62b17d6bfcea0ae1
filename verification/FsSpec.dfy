/** Blocks, inodes and block pointers of the file system, as fs.h lays them out. */
module FsSpec {

  const BSIZE := 512
  const NDIRECT := 12
  const NINDIRECT := 128
  const MAXFILE := 140
  const MAXBYTES := 71680    // MAXFILE * BSIZE

  type Byte = x: int | 0 <= x < 256

  // ----- The free bit map

  /** 1 << i in a byte. */
  function Mask(i: nat): (m: bv8)
    requires i < 8
  {
    if i == 0 then 1 else if i == 1 then 2 else if i == 2 then 4 else if i == 3 then 8
    else if i == 4 then 16 else if i == 5 then 32 else if i == 6 then 64 else 128
  }

  /** In the order of the shift. */
  lemma MaskIsShift(i: nat)
    requires i < 8
    ensures Mask(i) == (1 as bv8) << i
  {
  }

  predicate HasBit(x: bv8, i: nat)
    requires i < 8
  {
    x & Mask(i) != 0
  }

  lemma SetMask(x: bv8, i: nat, j: nat)
    requires i < 8 && j < 8
    ensures HasBit(x | Mask(i), j) <==> i == j || HasBit(x, j)
  {
  }

  lemma ClearMask(x: bv8, i: nat, j: nat)
    requires i < 8 && j < 8
    ensures HasBit(x & !Mask(i), j) <==> i != j && HasBit(x, j)
  {
  }

  type Bitmap = seq<bv8>

  predicate Used(bm: Bitmap, b: nat)
    requires b < 8 * |bm|
  {
    HasBit(bm[b / 8], b % 8)
  }

  function SetUsed(bm: Bitmap, b: nat): (r: Bitmap)
    requires b < 8 * |bm|
    ensures |r| == |bm|
  {
    bm[b / 8 := bm[b / 8] | Mask(b % 8)]
  }

  function SetFree(bm: Bitmap, b: nat): (r: Bitmap)
    requires b < 8 * |bm|
    ensures |r| == |bm|
  {
    bm[b / 8 := bm[b / 8] & !Mask(b % 8)]
  }

  /** Setting a bit in a byte of the map marks that block and no other. */
  lemma SetUsedAt(bm: Bitmap, b: nat, c: nat)
    requires b < 8 * |bm| && c < 8 * |bm|
    ensures Used(SetUsed(bm, b), c) <==> c == b || Used(bm, c)
  {
    if c / 8 == b / 8 {
      SetMask(bm[b / 8], b % 8, c % 8);
    }
  }

  lemma SetFreeAt(bm: Bitmap, b: nat, c: nat)
    requires b < 8 * |bm| && c < 8 * |bm|
    ensures Used(SetFree(bm, b), c) <==> c != b && Used(bm, c)
  {
    if c / 8 == b / 8 {
      ClearMask(bm[b / 8], b % 8, c % 8);
    }
  }

  // ----- Blocks and inodes

  /** A block as it is used: cleared by balloc, holding file data, or a table of pointers. */
  datatype Block = Zeroed | Data(bytes: seq<Byte>) | Table(ptrs: seq<nat>)

  function AsTable(b: Block): (t: seq<nat>)
    ensures |t| == NINDIRECT
  {
    if b.Table? && |b.ptrs| == NINDIRECT then b.ptrs else seq(NINDIRECT, _ => 0)
  }

  function AsBytes(b: Block): (t: seq<Byte>)
    ensures |t| == BSIZE
  {
    if b.Data? && |b.bytes| == BSIZE then b.bytes else seq(BSIZE, _ => 0)
  }

  datatype Inode = Inode(kind: int, nlink: int, size: nat, addrs: seq<nat>)

  /** Bit map, blocks and inodes; the first `nmeta` blocks are boot, superblock, log, inodes
      and bit map. */
  datatype Image = Image(nmeta: nat, bitmap: Bitmap, blocks: seq<Block>, inodes: seq<Inode>)

  ghost predicate Shape(g: Image) {
    && 0 < g.nmeta <= |g.blocks| <= 8 * |g.bitmap|
    && forall n | 0 <= n < |g.inodes| :: |g.inodes[n].addrs| == NDIRECT + 1
  }

  // ----- Who points at a block

  /** A place that can hold a block pointer: a direct pointer of an inode, its pointer to the
      indirect block, or an entry of that block. */
  datatype Slot = Direct(inum: nat, i: nat) | Indirect(inum: nat) | Entry(inum: nat, i: nat)

  predicate IsSlot(n: nat, x: Slot) {
    && x.inum < n
    && (x.Direct? ==> x.i < NDIRECT) && (x.Entry? ==> x.i < NINDIRECT)
  }

  /** The pointer in a slot, 0 if there is none. */
  function Ptr(g: Image, x: Slot): (p: nat)
    requires IsSlot(|g.inodes|, x) && |g.inodes[x.inum].addrs| == NDIRECT + 1
  {
    var addrs := g.inodes[x.inum].addrs;
    match x
    case Direct(_, i) => addrs[i]
    case Indirect(_) => addrs[NDIRECT]
    case Entry(_, i) =>
      if 0 < addrs[NDIRECT] < |g.blocks| then AsTable(g.blocks[addrs[NDIRECT]])[i] else 0
  }

  /** Which slot points at each block in use. */
  type Owner = map<nat, Slot>

  ghost predicate SlotOk(g: Image, owner: Owner, x: Slot)
    requires Shape(g) && IsSlot(|g.inodes|, x)
  {
    Ptr(g, x) != 0 ==> Ptr(g, x) in owner && owner[Ptr(g, x)] == x
  }

  ghost predicate OwnedOk(g: Image, owner: Owner, p: nat)
    requires Shape(g) && p in owner
  {
    && g.nmeta <= p < |g.blocks|
    && IsSlot(|g.inodes|, owner[p]) && Ptr(g, owner[p]) == p
    && (owner[p].Indirect? ==> !g.blocks[p].Data?) && (!owner[p].Indirect? ==> !g.blocks[p].Table?)
  }

  /** Every pointer is the only one to its block, and leads to a block outside the metadata
      that is used as the pointer's kind says. */
  ghost predicate PointersOk(g: Image, owner: Owner) {
    && Shape(g)
    && (forall x | IsSlot(|g.inodes|, x) :: SlotOk(g, owner, x))
    && (forall p | p in owner :: OwnedOk(g, owner, p))
  }

  /** A block's bit is set exactly when it is metadata or some slot points at it. */
  ghost predicate BitsOk(g: Image, owner: Owner) {
    && Shape(g)
    && forall b: nat | b < |g.blocks| :: Used(g.bitmap, b) <==> b < g.nmeta || b in owner
  }

  // ----- Adding a pointer

  function SetAddr(g: Image, n: nat, i: nat, b: nat): (r: Image)
    requires n < |g.inodes| && i < |g.inodes[n].addrs|
  {
    g.(inodes := g.inodes[n := g.inodes[n].(addrs := g.inodes[n].addrs[i := b])])
  }

  function SetEntry(g: Image, t: nat, j: nat, b: nat): (r: Image)
    requires t < |g.blocks| && j < NINDIRECT
  {
    g.(blocks := g.blocks[t := Table(AsTable(g.blocks[t])[j := b])])
  }

  /** What balloc does: mark a free block and clear it. */
  function Allocated(g: Image, b: nat): (r: Image)
    requires b < 8 * |g.bitmap| && b < |g.blocks|
  {
    g.(bitmap := SetUsed(g.bitmap, b), blocks := g.blocks[b := Zeroed])
  }

  /** Storing a pointer to a block nobody points at. */
  lemma PointAddr(g: Image, owner: Owner, n: nat, i: nat, b: nat)
    requires PointersOk(g, owner) && n < |g.inodes| && i <= NDIRECT && g.inodes[n].addrs[i] == 0
    requires g.nmeta <= b < |g.blocks| && b !in owner && g.blocks[b].Zeroed?
    ensures PointersOk(SetAddr(g, n, i, b), owner[b := if i < NDIRECT then Direct(n, i) else Indirect(n)])
  {
    var r := SetAddr(g, n, i, b);
    var x := if i < NDIRECT then Direct(n, i) else Indirect(n);
    var owner' := owner[b := x];
    forall y | IsSlot(|r.inodes|, y)
      ensures SlotOk(r, owner', y)
    {
      assert SlotOk(g, owner, y);
    }
    forall p | p in owner'
      ensures OwnedOk(r, owner', p)
    {
      if p != b {
        assert OwnedOk(g, owner, p);
      }
    }
  }

  lemma PointEntry(g: Image, owner: Owner, n: nat, j: nat, b: nat)
    requires PointersOk(g, owner) && n < |g.inodes| && j < NINDIRECT
    requires 0 < g.inodes[n].addrs[NDIRECT] < |g.blocks| && Ptr(g, Entry(n, j)) == 0
    requires g.nmeta <= b < |g.blocks| && b !in owner && g.blocks[b].Zeroed?
    ensures PointersOk(SetEntry(g, g.inodes[n].addrs[NDIRECT], j, b), owner[b := Entry(n, j)])
  {
    var t := g.inodes[n].addrs[NDIRECT];
    var r := SetEntry(g, t, j, b);
    var owner' := owner[b := Entry(n, j)];
    assert SlotOk(g, owner, Indirect(n));
    forall y | IsSlot(|r.inodes|, y)
      ensures SlotOk(r, owner', y)
    {
      assert SlotOk(g, owner, y);
      assert SlotOk(g, owner, Indirect(y.inum));
    }
    forall p | p in owner'
      ensures OwnedOk(r, owner', p)
    {
      if p != b {
        assert OwnedOk(g, owner, p);
        assert SlotOk(g, owner, Indirect(owner[p].inum));
      }
    }
  }

  lemma AllocatedOk(g: Image, owner: Owner, b: nat)
    requires PointersOk(g, owner) && BitsOk(g, owner) && b < |g.blocks| && !Used(g.bitmap, b)
    ensures g.nmeta <= b && b !in owner
    ensures PointersOk(Allocated(g, b), owner)
    ensures forall x | IsSlot(|g.inodes|, x) :: Ptr(Allocated(g, b), x) == Ptr(g, x)
    ensures forall c: nat | c < |g.blocks| :: Used(Allocated(g, b).bitmap, c) <==> c < g.nmeta || c in owner || c == b
  {
    var r := Allocated(g, b);
    forall x | IsSlot(|g.inodes|, x)
      ensures Ptr(r, x) == Ptr(g, x) && SlotOk(r, owner, x)
    {
      assert SlotOk(g, owner, x);
      assert SlotOk(g, owner, Indirect(x.inum));
    }
    forall p | p in owner
      ensures OwnedOk(r, owner, p)
    {
      assert OwnedOk(g, owner, p);
    }
    forall c: nat | c < |g.blocks|
      ensures Used(r.bitmap, c) <==> c < g.nmeta || c in owner || c == b
    {
      SetUsedAt(g.bitmap, b, c);
    }
  }
}
