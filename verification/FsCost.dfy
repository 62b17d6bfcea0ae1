/** How many blocks bmap needs: which pointers one call sets, and what a range of a file costs. */
module FsCost {
  import opened FsSpec
  import opened FsFile
  import opened FsAlloc

  // ----- One call of bmap

  /** No pointer has changed but the one in slot x. */
  ghost predicate OtherSlots(g: Image, r: Image, x: Slot) {
    && Shape(g) && Shape(r) && |r.inodes| == |g.inodes|
    && forall y | IsSlot(|g.inodes|, y) && y != x :: Ptr(r, y) == Ptr(g, y)
  }

  /** No block of file n has changed but block bn, and the table only if bn is in it. */
  ghost predicate OtherBlocks(g: Image, r: Image, n: nat, bn: nat) {
    && Shape(g) && Shape(r) && n < |g.inodes| == |r.inodes|
    && (bn < NDIRECT ==> r.inodes[n].addrs[NDIRECT] == g.inodes[n].addrs[NDIRECT])
    && forall c: nat | c < MAXFILE && c != bn :: BlockOf(r, n, c) == BlockOf(g, n, c)
  }

  lemma NoOtherSlots(g: Image, x: Slot)
    requires Shape(g)
    ensures OtherSlots(g, g, x)
  {
  }

  lemma NoOthers(g: Image, n: nat, bn: nat)
    requires Shape(g) && n < |g.inodes|
    ensures OtherBlocks(g, g, n, bn)
  {
  }

  lemma SlotsAreBlocks(g: Image, r: Image, n: nat, bn: nat, x: Slot)
    requires OtherSlots(g, r, x) && n < |g.inodes| && bn < MAXFILE
    requires x == SlotFor(n, bn) || (x == Indirect(n) && NDIRECT <= bn)
    ensures OtherBlocks(g, r, n, bn)
  {
    forall c: nat | c < MAXFILE && c != bn
      ensures BlockOf(r, n, c) == BlockOf(g, n, c)
    {
      assert SlotFor(n, c) != x;
    }
    if bn < NDIRECT {
      assert Ptr(r, Indirect(n)) == Ptr(g, Indirect(n));
    }
  }

  lemma OtherBlocksTwice(g: Image, r: Image, q: Image, n: nat, bn: nat)
    requires OtherBlocks(g, r, n, bn) && OtherBlocks(r, q, n, bn)
    ensures OtherBlocks(g, q, n, bn)
  {
    hide BlockOf;
  }

  lemma AddrOthers(g: Image, owner: Owner, n: nat, i: nat, b: nat)
    requires FsOk(g, owner) && n < |g.inodes| && i <= NDIRECT && g.inodes[n].addrs[i] == 0
    requires b < |g.blocks| && !Used(g.bitmap, b)
    ensures OtherSlots(g, SetAddr(Allocated(g, b), n, i, b), AddrSlot(n, i))
  {
    var r := SetAddr(Allocated(g, b), n, i, b);
    forall y | IsSlot(|g.inodes|, y) && y != AddrSlot(n, i)
      ensures Ptr(r, y) == Ptr(g, y)
    {
      assert SlotOk(g, owner, Indirect(y.inum));
    }
  }

  lemma EntryOthers(g: Image, owner: Owner, n: nat, j: nat, b: nat)
    requires FsOk(g, owner) && n < |g.inodes| && j < NINDIRECT && b < |g.blocks| && !Used(g.bitmap, b)
    requires 0 < g.inodes[n].addrs[NDIRECT] < |g.blocks|
    ensures OtherSlots(g, SetEntry(Allocated(g, b), g.inodes[n].addrs[NDIRECT], j, b), Entry(n, j))
  {
    var t := g.inodes[n].addrs[NDIRECT];
    var r := SetEntry(Allocated(g, b), t, j, b);
    assert SlotOk(g, owner, Indirect(n));
    forall y | IsSlot(|g.inodes|, y) && y != Entry(n, j)
      ensures Ptr(r, y) == Ptr(g, y)
    {
      assert SlotOk(g, owner, Indirect(y.inum));
    }
  }

  /** Before and after its table exists, an entry that is missing is missing. */
  lemma NewTableEmpty(g: Image, r: Image, n: nat, j: nat)
    requires OtherSlots(g, r, Indirect(n)) && n < |g.inodes| && j < NINDIRECT
    ensures Ptr(r, Entry(n, j)) == Ptr(g, Entry(n, j))
  {
  }

  lemma PutOthers(g: Image, owner: Owner, n: nat, bn: nat, bytes: seq<Byte>)
    requires PointersOk(g, owner) && n < |g.inodes| && bn < MAXFILE && |bytes| == BSIZE
      && 0 < BlockOf(g, n, bn) < |g.blocks|
    ensures OtherBlocks(g, PutData(g, BlockOf(g, n, bn), bytes), n, bn)
  {
    PutDataOk(g, owner, n, bn, bytes);
  }

  // ----- Free blocks

  ghost function FreeBlocks(bm: Bitmap, size: nat): (r: set<nat>)
    requires size <= 8 * |bm|
  {
    set b: nat | b < size && !Used(bm, b)
  }

  /** The number of blocks that balloc can still hand out. */
  ghost function FreeCount(g: Image): (n: nat)
    requires Shape(g)
  {
    |FreeBlocks(g.bitmap, |g.blocks|)|
  }

  /** The number it hands out before it panics: none at all when no operation is in progress,
      because log_write then refuses the bit map. */
  ghost function Avail(g: Image, inOp: bool): (n: nat)
    requires Shape(g)
  {
    if inOp then FreeCount(g) else 0
  }

  lemma NoneFree(g: Image)
    requires Shape(g) && forall b: nat | b < |g.blocks| :: Used(g.bitmap, b)
    ensures FreeCount(g) == 0
  {
    assert FreeBlocks(g.bitmap, |g.blocks|) == {};
  }

  /** Taking a free block leaves one less. */
  lemma OneLessFree(g: Image, r: Image, b: nat)
    requires Shape(g) && Shape(r) && b < |g.blocks| == |r.blocks| && !Used(g.bitmap, b)
      && r.bitmap == SetUsed(g.bitmap, b)
    ensures FreeCount(g) == FreeCount(r) + 1
  {
    hide Used, SetUsed;
    forall c: nat | c < |g.blocks|
      ensures Used(r.bitmap, c) <==> c == b || Used(g.bitmap, c)
    {
      SetUsedAt(g.bitmap, b, c);
    }
    assert FreeBlocks(g.bitmap, |g.blocks|) == FreeBlocks(r.bitmap, |r.blocks|) + {b};
  }

  // ----- What a range of a file costs

  predicate TableMissing(g: Image, n: nat)
    requires n < |g.inodes| && |g.inodes[n].addrs| == NDIRECT + 1
  {
    g.inodes[n].addrs[NDIRECT] == 0
  }

  /** Blocks that bmap takes for block bn of file n: that block, and the table on the way. */
  function Cost(g: Image, n: nat, bn: nat): (c: nat)
    requires n < |g.inodes| && |g.inodes[n].addrs| == NDIRECT + 1 && bn < MAXFILE
  {
    (if BlockOf(g, n, bn) == 0 then 1 else 0) + if NDIRECT <= bn && TableMissing(g, n) then 1 else 0
  }

  /** Blocks missing from file n in its blocks from lo up to hi: data blocks, and the table
      once. */
  function Need(g: Image, n: nat, lo: nat, hi: nat): (c: nat)
    requires n < |g.inodes| && |g.inodes[n].addrs| == NDIRECT + 1 && lo <= hi <= MAXFILE
  {
    if lo == hi then 0
    else
      var bn := hi - 1;
      Need(g, n, lo, bn)
      + (if BlockOf(g, n, bn) == 0 then 1 else 0)
      + if NDIRECT <= bn && (bn == NDIRECT || bn == lo) && TableMissing(g, n) then 1 else 0
  }

  lemma {:induction false} NeedGrows(g: Image, n: nat, lo: nat, mid: nat, hi: nat)
    requires n < |g.inodes| && |g.inodes[n].addrs| == NDIRECT + 1 && lo <= mid <= hi <= MAXFILE
    ensures Need(g, n, lo, mid) <= Need(g, n, lo, hi)
    decreases hi
  {
    hide BlockOf;
    if mid < hi {
      NeedGrows(g, n, lo, mid, hi - 1);
    }
  }

  /** The first block after the bytes from off on, len of them. */
  function After(off: nat, len: nat): (hi: nat)
    ensures Bn(off) <= hi && (off + len <= MAXBYTES ==> hi <= MAXFILE)
  {
    if len == 0 then Bn(off) else Bn(off + len - 1) + 1
  }

  /** From g to r, blocks lo up to hi of file n were filled in, for used blocks, and nothing
      after them. */
  ghost predicate Spent(g: Image, r: Image, n: nat, lo: nat, hi: nat, used: int) {
    && Shape(g) && Shape(r) && n < |g.inodes| == |r.inodes| && lo <= hi <= MAXFILE
    && used == Need(g, n, lo, hi)
    && (forall c: nat | hi <= c < MAXFILE :: BlockOf(r, n, c) == BlockOf(g, n, c))
    && (TableMissing(r, n) <==> TableMissing(g, n) && !(lo < hi && NDIRECT < hi))
  }

  lemma SpentNothing(g: Image, n: nat, lo: nat)
    requires Shape(g) && n < |g.inodes| && lo <= MAXFILE
    ensures Spent(g, g, n, lo, lo, 0)
  {
  }

  /** The next block costs what it would have cost at first, with the table taken once. */
  lemma NextCost(g: Image, r: Image, n: nat, lo: nat, hi: nat, used: int)
    requires Spent(g, r, n, lo, hi, used) && hi < MAXFILE
    ensures Need(g, n, lo, hi + 1) == used + Cost(r, n, hi)
  {
    hide BlockOf;
  }

  lemma SpentNext(g: Image, r: Image, q: Image, n: nat, lo: nat, hi: nat, used: int)
    requires Spent(g, r, n, lo, hi, used) && hi < MAXFILE && OtherBlocks(r, q, n, hi) && BlockOf(q, n, hi) != 0
    ensures Spent(g, q, n, lo, hi + 1, used + Cost(r, n, hi))
  {
    NextCost(g, r, n, lo, hi, used);
    if NDIRECT <= hi {
      BlockHasAddr(q, n, hi);
    }
    hide BlockOf, Need;
  }

  /** When the next block costs more than is left, the range does. */
  lemma CannotAfford(g: Image, r: Image, n: nat, lo: nat, hi: nat, end: nat, used: int, left: int)
    requires Spent(g, r, n, lo, hi, used) && hi < end <= MAXFILE && left < Cost(r, n, hi)
    ensures used + left < Need(g, n, lo, end)
  {
    hide BlockOf, Need;
    NextCost(g, r, n, lo, hi, used);
    NeedGrows(g, n, lo, hi + 1, end);
  }

  /** A range whose blocks are all there costs nothing. */
  lemma {:induction false} BackedIsFree(g: Image, n: nat, lo: nat, hi: nat)
    requires Shape(g) && n < |g.inodes| && lo <= hi <= MAXFILE
    requires forall bn: nat | lo <= bn < hi :: BlockOf(g, n, bn) != 0
    ensures Need(g, n, lo, hi) == 0
    decreases hi
  {
    if lo < hi {
      BackedIsFree(g, n, lo, hi - 1);
      BlockHasAddr(g, n, hi - 1);
    }
  }

  lemma RangeIsFree(g: Image, n: nat, off: nat, len: nat)
    requires Shape(g) && n < |g.inodes| && After(off, len) <= MAXFILE && RangeBacked(g, n, off, off + len)
    ensures Need(g, n, Bn(off), After(off, len)) == 0
  {
    hide BlockOf;
    forall bn: nat | Bn(off) <= bn < After(off, len)
      ensures BlockOf(g, n, bn) != 0
    {
      assert InRange(bn, off, off + len);
    }
    BackedIsFree(g, n, Bn(off), After(off, len));
  }

  /** In a loop over the bytes, each round ends with a block or with the bytes. */
  lemma NextRound(off: nat, tot: nat, len: nat, m: nat)
    requires tot < len && 0 < m <= len - tot && (tot == 0 || Off(off + tot) == 0)
    requires m == len - tot || Off(off + tot) + m == BSIZE
    requires Off(off + tot) + m <= BSIZE
    ensures After(off, tot) == Bn(off + tot) && After(off, tot + m) == Bn(off + tot) + 1
    ensures tot + m == len || Off(off + tot + m) == 0
  {
  }

  // ----- A loop over the bytes of a range

  /** The loop has done tot of len bytes from off on, to the end of a block or of the bytes, and
      has taken just the blocks that were missing. */
  ghost predicate Midway(g: Image, r: Image, n: nat, off: nat, tot: nat, len: nat, used: int) {
    && tot <= len && (tot == 0 || tot == len || Off(off + tot) == 0)
    && Spent(g, r, n, Bn(off), After(off, tot), used)
  }

  lemma MidwayStart(g: Image, n: nat, off: nat, len: nat)
    requires Shape(g) && n < |g.inodes| && off + len <= MAXBYTES
    ensures Midway(g, g, n, off, 0, len, 0)
  {
    SpentNothing(g, n, Bn(off));
  }

  lemma MidwayNext(g: Image, r: Image, q: Image, n: nat, off: nat, tot: nat, len: nat, m: nat, used: int)
    requires Midway(g, r, n, off, tot, len, used) && tot < len && off + len <= MAXBYTES && 0 < m <= len - tot
    requires Off(off + tot) + m <= BSIZE && (m == len - tot || Off(off + tot) + m == BSIZE)
    requires OtherBlocks(r, q, n, Bn(off + tot)) && BlockOf(q, n, Bn(off + tot)) != 0
    ensures Midway(g, q, n, off, tot + m, len, used + Cost(r, n, Bn(off + tot)))
  {
    hide BlockOf, Spent, Cost;
    NextRound(off, tot, len, m);
    SpentNext(g, r, q, n, Bn(off), Bn(off + tot), used);
  }

  lemma MidwayFails(g: Image, r: Image, n: nat, off: nat, tot: nat, len: nat, used: int, left: int)
    requires Midway(g, r, n, off, tot, len, used) && tot < len && off + len <= MAXBYTES
    requires n < |r.inodes| && Shape(r) && left < Cost(r, n, Bn(off + tot))
    ensures n < |g.inodes| && Shape(g) && used + left < Need(g, n, Bn(off), After(off, len))
  {
    hide BlockOf;
    CannotAfford(g, r, n, Bn(off), Bn(off + tot), After(off, len), used, left);
  }

  lemma MidwayEnds(g: Image, r: Image, n: nat, off: nat, len: nat, used: int)
    requires Midway(g, r, n, off, len, len, used)
    ensures Shape(g) && Shape(r) && n < |g.inodes| && Bn(off) <= After(off, len) <= MAXFILE
    ensures used == Need(g, n, Bn(off), After(off, len))
  {
  }
}
