/** Giving blocks to files and taking them back, as steps on the whole image. */
module FsAlloc {
  import opened FsSpec
  import opened FsFile

  ghost predicate FsOk(g: Image, owner: Owner) {
    PointersOk(g, owner) && BitsOk(g, owner)
  }

  function AddrSlot(n: nat, i: nat): (x: Slot) {
    if i < NDIRECT then Direct(n, i) else Indirect(n)
  }

  /** No pointer that was there is changed, and slots outside file `n` are not touched. */
  ghost predicate OnlyAdds(g: Image, r: Image, n: nat) {
    && Shape(g) && Shape(r) && r.nmeta == g.nmeta && |r.blocks| == |g.blocks| && |r.inodes| == |g.inodes|
    && (forall m | 0 <= m < |g.inodes| ::
          r.inodes[m].(addrs := g.inodes[m].addrs) == g.inodes[m] && (m != n ==> r.inodes[m] == g.inodes[m]))
    && (forall x | IsSlot(|g.inodes|, x) && (Ptr(g, x) != 0 || x.inum != n) :: Ptr(r, x) == Ptr(g, x))
  }

  lemma AllocAddr(g: Image, owner: Owner, n: nat, i: nat, b: nat)
    requires FsOk(g, owner) && n < |g.inodes| && i <= NDIRECT && g.inodes[n].addrs[i] == 0
    requires b < |g.blocks| && !Used(g.bitmap, b)
    ensures var r := SetAddr(Allocated(g, b), n, i, b);
      && FsOk(r, owner[b := AddrSlot(n, i)]) && SameBytes(g, r) && OnlyAdds(g, r, n)
      && b !in owner && 0 < b
  {
    AllocatedOk(g, owner, b);
    AllocatedBytes(g, owner, b);
    var a := Allocated(g, b);
    PointAddr(a, owner, n, i, b);
    PointAddrBytes(a, owner, n, i, b);
    var r := SetAddr(a, n, i, b);
    hide PointersOk;
    forall x | IsSlot(|g.inodes|, x) && (Ptr(g, x) != 0 || x.inum != n)
      ensures Ptr(r, x) == Ptr(g, x)
    {
      assert Ptr(a, x) == Ptr(g, x);
    }
  }

  lemma EntryAdds(g: Image, owner: Owner, n: nat, j: nat, b: nat)
    requires PointersOk(g, owner) && n < |g.inodes| && j < NINDIRECT
    requires 0 < g.inodes[n].addrs[NDIRECT] < |g.blocks| && Ptr(g, Entry(n, j)) == 0
    ensures OnlyAdds(g, SetEntry(g, g.inodes[n].addrs[NDIRECT], j, b), n)
  {
    var r := SetEntry(g, g.inodes[n].addrs[NDIRECT], j, b);
    assert SlotOk(g, owner, Indirect(n));
    forall x | IsSlot(|g.inodes|, x) && (Ptr(g, x) != 0 || x.inum != n)
      ensures Ptr(r, x) == Ptr(g, x)
    {
      assert SlotOk(g, owner, Indirect(x.inum));
    }
  }

  lemma AllocAdds(g: Image, b: nat, n: nat)
    requires Shape(g) && b < |g.blocks|
    requires forall x | IsSlot(|g.inodes|, x) :: Ptr(Allocated(g, b), x) == Ptr(g, x)
    ensures OnlyAdds(g, Allocated(g, b), n)
  {
    hide Ptr;
  }

  lemma SameBytesTrans(g: Image, r: Image, q: Image)
    requires SameBytes(g, r) && SameBytes(r, q)
    ensures SameBytes(g, q)
  {
    hide ByteAt;
  }

  lemma AllocEntry(g: Image, owner: Owner, n: nat, j: nat, b: nat)
    requires Shape(g) && FsOk(g, owner) && n < |g.inodes| && j < NINDIRECT
    requires 0 < g.inodes[n].addrs[NDIRECT] < |g.blocks| && Ptr(g, Entry(n, j)) == 0
    requires b < |g.blocks| && !Used(g.bitmap, b)
    ensures var r := SetEntry(Allocated(g, b), g.inodes[n].addrs[NDIRECT], j, b);
      && FsOk(r, owner[b := Entry(n, j)]) && SameBytes(g, r) && OnlyAdds(g, r, n)
      && b !in owner && 0 < b
  {
    hide PointersOk, SameBytes, OnlyAdds, Ptr, Used, SetUsed;
    var t := g.inodes[n].addrs[NDIRECT];
    AllocatedOk(g, owner, b);
    AllocatedBytes(g, owner, b);
    IndirectIsUsed(g, owner, n);
    var a := Allocated(g, b);
    assert Ptr(a, Entry(n, j)) == 0;
    PointEntry(a, owner, n, j, b);
    PointEntryBytes(a, owner, n, j, b);
    SameBytesTrans(g, a, SetEntry(a, t, j, b));
    AllocAdds(g, b, n);
    EntryAdds(a, owner, n, j, b);
    OnlyAddsTrans(g, a, SetEntry(a, t, j, b), n);
  }

  lemma IndirectIsUsed(g: Image, owner: Owner, n: nat)
    requires PointersOk(g, owner) && n < |g.inodes| && g.inodes[n].addrs[NDIRECT] != 0
    ensures g.inodes[n].addrs[NDIRECT] in owner
  {
    assert SlotOk(g, owner, Indirect(n));
  }

  // ----- Taking blocks away

  /** What is left of the owners when the direct pointers below `i` of file `n` are gone. */
  ghost function KeepDirect(owner: Owner, n: nat, i: nat): (r: Owner) {
    map p | p in owner && !(owner[p].Direct? && owner[p].inum == n && owner[p].i < i) :: owner[p]
  }

  /** ... and when nothing of file `n` is left. */
  ghost function KeepOthers(owner: Owner, n: nat): (r: Owner) {
    map p | p in owner && owner[p].inum != n :: owner[p]
  }

  function Released(g: Image, b: nat): (r: Image)
    requires b < 8 * |g.bitmap|
  {
    g.(bitmap := SetFree(g.bitmap, b))
  }

  lemma PointersIgnoreBits(g: Image, owner: Owner, bm: Bitmap)
    requires PointersOk(g, owner) && |bm| == |g.bitmap|
    ensures PointersOk(g.(bitmap := bm), owner)
  {
    var r := g.(bitmap := bm);
    forall x | IsSlot(|r.inodes|, x)
      ensures SlotOk(r, owner, x)
    {
      assert SlotOk(g, owner, x);
    }
    forall p | p in owner
      ensures OwnedOk(r, owner, p)
    {
      assert OwnedOk(g, owner, p);
    }
  }

  lemma ClearDirect(g: Image, owner: Owner, n: nat, i: nat)
    requires PointersOk(g, owner) && n < |g.inodes| && i < NDIRECT && g.inodes[n].addrs[i] != 0
    ensures var b := g.inodes[n].addrs[i];
      && b in owner && g.nmeta <= b < |g.blocks| && owner[b] == Direct(n, i)
      && PointersOk(SetAddr(g, n, i, 0), owner - {b})
  {
    var b := g.inodes[n].addrs[i];
    assert SlotOk(g, owner, Direct(n, i));
    assert OwnedOk(g, owner, b);
    var r := SetAddr(g, n, i, 0);
    var owner' := owner - {b};
    forall x | IsSlot(|r.inodes|, x)
      ensures SlotOk(r, owner', x)
    {
      assert SlotOk(g, owner, x);
    }
    forall p | p in owner'
      ensures OwnedOk(r, owner', p)
    {
      assert OwnedOk(g, owner, p);
    }
  }

  lemma DropDirect(g: Image, owner: Owner, n: nat, i: nat)
    requires Shape(g) && FsOk(g, owner) && n < |g.inodes| && i < NDIRECT && g.inodes[n].addrs[i] != 0
    ensures var b := g.inodes[n].addrs[i];
      && b in owner && b < |g.blocks| && Used(g.bitmap, b) && owner[b] == Direct(n, i)
      && FsOk(SetAddr(Released(g, b), n, i, 0), owner - {b})
  {
    hide PointersOk, Used, SetFree;
    var b := g.inodes[n].addrs[i];
    ClearDirect(g, owner, n, i);
    PointersIgnoreBits(SetAddr(g, n, i, 0), owner - {b}, SetFree(g.bitmap, b));
    ReleasedBits(g, owner, b);
  }

  lemma ReleasedBits(g: Image, owner: Owner, b: nat)
    requires BitsOk(g, owner) && b < |g.blocks| && b in owner && g.nmeta <= b
    ensures BitsOk(Released(g, b), owner - {b})
  {
    forall c: nat | c < |g.blocks|
      ensures Used(Released(g, b).bitmap, c) <==> c < g.nmeta || c in owner - {b}
    {
      SetFreeAt(g.bitmap, b, c);
    }
  }

  /** The bit map while the entries below `j` of file `n`'s indirect block have been freed. */
  ghost predicate EntriesFreed(g: Image, owner: Owner, bm: Bitmap, n: nat, j: nat) {
    && Shape(g) && |bm| == |g.bitmap|
    && forall b: nat | b < |g.blocks| ::
         Used(bm, b) <==>
           b < g.nmeta || (b in owner && !(owner[b].Entry? && owner[b].inum == n && owner[b].i < j))
  }

  lemma FreeEntry(g: Image, owner: Owner, bm: Bitmap, n: nat, j: nat)
    requires FsOk(g, owner) && EntriesFreed(g, owner, bm, n, j) && n < |g.inodes| && j < NINDIRECT
    ensures var b := Ptr(g, Entry(n, j));
      if b == 0 then EntriesFreed(g, owner, bm, n, j + 1)
      else b < |g.blocks| && Used(bm, b) && EntriesFreed(g, owner, SetFree(bm, b), n, j + 1)
  {
    var b := Ptr(g, Entry(n, j));
    assert SlotOk(g, owner, Entry(n, j));
    if b == 0 {
      forall c: nat | c < |g.blocks| && c in owner
        ensures owner[c] != Entry(n, j)
      {
        assert OwnedOk(g, owner, c);
      }
    } else {
      assert OwnedOk(g, owner, b);
      forall c: nat | c < |g.blocks|
        ensures Used(SetFree(bm, b), c) <==>
          c < g.nmeta || (c in owner && !(owner[c].Entry? && owner[c].inum == n && owner[c].i < j + 1))
      {
        SetFreeAt(bm, b, c);
        if c in owner {
          assert OwnedOk(g, owner, c);
        }
      }
    }
  }

  /** Dropping the indirect block after its entries leaves exactly the other owners. */
  lemma ClearIndirect(g: Image, owner: Owner, n: nat)
    requires PointersOk(g, owner) && n < |g.inodes| && g.inodes[n].addrs[NDIRECT] != 0
    requires forall p | p in owner :: !(owner[p].Direct? && owner[p].inum == n)
    ensures var t := g.inodes[n].addrs[NDIRECT];
      && t in owner && t < |g.blocks| && owner[t] == Indirect(n)
      && PointersOk(SetAddr(g, n, NDIRECT, 0), KeepOthers(owner, n))
  {
    var t := g.inodes[n].addrs[NDIRECT];
    assert SlotOk(g, owner, Indirect(n));
    assert OwnedOk(g, owner, t);
    var r := SetAddr(g, n, NDIRECT, 0);
    var owner' := KeepOthers(owner, n);
    forall x | IsSlot(|r.inodes|, x)
      ensures SlotOk(r, owner', x)
    {
      assert SlotOk(g, owner, x);
    }
    forall p | p in owner'
      ensures OwnedOk(r, owner', p)
    {
      assert OwnedOk(g, owner, p);
    }
  }

  lemma DropTable(g: Image, owner: Owner, bm: Bitmap, n: nat)
    requires Shape(g) && FsOk(g, owner) && n < |g.inodes| && EntriesFreed(g, owner, bm, n, NINDIRECT)
    requires g.inodes[n].addrs[NDIRECT] != 0
    requires forall p | p in owner :: !(owner[p].Direct? && owner[p].inum == n)
    ensures var t := g.inodes[n].addrs[NDIRECT];
      && t < |g.blocks| && Used(bm, t)
      && FsOk(SetAddr(g.(bitmap := SetFree(bm, t)), n, NDIRECT, 0), KeepOthers(owner, n))
  {
    hide PointersOk, Used, SetFree, KeepOthers;
    var t := g.inodes[n].addrs[NDIRECT];
    ClearIndirect(g, owner, n);
    PointersIgnoreBits(SetAddr(g, n, NDIRECT, 0), KeepOthers(owner, n), SetFree(bm, t));
    TableBits(g, owner, bm, n, t);
  }

  lemma TableBits(g: Image, owner: Owner, bm: Bitmap, n: nat, t: nat)
    requires FsOk(g, owner) && n < |g.inodes| && EntriesFreed(g, owner, bm, n, NINDIRECT)
    requires t < |g.blocks| && t in owner && owner[t] == Indirect(n)
    requires forall p | p in owner :: !(owner[p].Direct? && owner[p].inum == n)
    ensures forall c: nat | c < |g.blocks| :: Used(SetFree(bm, t), c) <==> c < g.nmeta || c in KeepOthers(owner, n)
  {
    OneBlock(g, owner, t);
    assert OwnedOk(g, owner, t);
    hide Mask, HasBit;
    forall c: nat | c < |g.blocks|
      ensures Used(SetFree(bm, t), c) <==> c < g.nmeta || c in KeepOthers(owner, n)
    {
      SetFreeAt(bm, t, c);
      if c in owner {
        assert OwnedOk(g, owner, c);
      }
    }
  }

  lemma OneBlock(g: Image, owner: Owner, b: nat)
    requires FsOk(g, owner) && b in owner
    ensures forall p | p in owner && p != b :: owner[p] != owner[b]
  {
    forall p | p in owner
      ensures p != b ==> owner[p] != owner[b]
    {
      assert OwnedOk(g, owner, p) && OwnedOk(g, owner, b);
    }
  }

  lemma NoBlock(g: Image, owner: Owner, x: Slot)
    requires FsOk(g, owner) && IsSlot(|g.inodes|, x) && Ptr(g, x) == 0
    ensures forall p | p in owner :: owner[p] != x
  {
    forall p | p in owner
      ensures owner[p] != x
    {
      assert OwnedOk(g, owner, p);
    }
  }

  lemma HasShape(g: Image, owner: Owner)
    requires FsOk(g, owner)
    ensures Shape(g)
  {
  }

  lemma KeepAll(owner: Owner, n: nat)
    ensures KeepDirect(owner, n, 0) == owner
  {
  }

  lemma KeepOneMore(owner: Owner, n: nat, i: nat)
    ensures KeepDirect(owner, n, i + 1)
      == map p | p in KeepDirect(owner, n, i) && KeepDirect(owner, n, i)[p] != Direct(n, i) ::
        KeepDirect(owner, n, i)[p]
  {
  }

  /** Removing one direct pointer, or finding that there is none. */
  lemma DropOwner(g: Image, owner: Owner, n: nat, i: nat)
    requires FsOk(g, owner) && n < |g.inodes| && i < NDIRECT && |g.inodes[n].addrs| == NDIRECT + 1
    ensures var b := g.inodes[n].addrs[i];
      (map p | p in owner && owner[p] != Direct(n, i) :: owner[p]) == if b == 0 then owner else owner - {b}
  {
    var b := g.inodes[n].addrs[i];
    assert SlotOk(g, owner, Direct(n, i));
    if b == 0 {
      NoBlock(g, owner, Direct(n, i));
    } else {
      OneBlock(g, owner, b);
    }
  }

  lemma NoDirectLeft(g: Image, owner: Owner, n: nat)
    requires FsOk(g, owner)
    ensures var k := KeepDirect(owner, n, NDIRECT);
      forall p | p in k :: !(k[p].Direct? && k[p].inum == n)
  {
    forall p | p in owner
      ensures owner[p].Direct? ==> owner[p].i < NDIRECT
    {
      assert OwnedOk(g, owner, p);
    }
  }

  lemma KeepTwice(owner: Owner, n: nat, i: nat)
    ensures KeepOthers(KeepDirect(owner, n, i), n) == KeepOthers(owner, n)
  {
  }

  lemma TableStart(g: Image, owner: Owner, n: nat)
    requires FsOk(g, owner) && n < |g.inodes| && g.inodes[n].addrs[NDIRECT] != 0
    ensures g.inodes[n].addrs[NDIRECT] < |g.blocks|
    ensures EntriesFreed(g, owner, g.bitmap, n, 0)
  {
    assert SlotOk(g, owner, Indirect(n));
    assert OwnedOk(g, owner, g.inodes[n].addrs[NDIRECT]);
  }

  /** Without direct pointers and without an indirect block a file owns nothing. */
  lemma NoTable(g: Image, owner: Owner, n: nat)
    requires FsOk(g, owner) && n < |g.inodes| && g.inodes[n].addrs[NDIRECT] == 0
    requires forall p | p in owner :: !(owner[p].Direct? && owner[p].inum == n)
    ensures KeepOthers(owner, n) == owner
  {
    forall p | p in owner
      ensures owner[p].inum != n
    {
      assert OwnedOk(g, owner, p);
    }
  }

  lemma SizeKeeps(g: Image, owner: Owner, n: nat, size: nat)
    requires FsOk(g, owner) && n < |g.inodes|
    ensures FsOk(SetSize(g, n, size), owner)
  {
    var r := SetSize(g, n, size);
    forall x | IsSlot(|r.inodes|, x)
      ensures SlotOk(r, owner, x)
    {
      assert SlotOk(g, owner, x);
    }
    forall p | p in owner
      ensures OwnedOk(r, owner, p)
    {
      assert OwnedOk(g, owner, p);
    }
  }

  lemma SameBytesThenPatched(g: Image, r: Image, q: Image, n: nat, pos: nat, piece: seq<Byte>)
    requires SameBytes(g, r) && Patched(r, q, n, pos, piece)
    ensures Patched(g, q, n, pos, piece)
  {
    hide ByteAt;
  }

  lemma OnlyAddsTrans(g: Image, r: Image, q: Image, n: nat)
    requires OnlyAdds(g, r, n) && OnlyAdds(r, q, n)
    ensures OnlyAdds(g, q, n)
  {
    hide Ptr;
  }

  lemma PutDataKeeps(g: Image, owner: Owner, n: nat, bn: nat, bytes: seq<Byte>)
    requires FsOk(g, owner) && n < |g.inodes| && bn < MAXFILE && |bytes| == BSIZE && BlockOf(g, n, bn) != 0
    ensures BlockOf(g, n, bn) < |g.blocks|
    ensures var r := PutData(g, BlockOf(g, n, bn), bytes); FsOk(r, owner) && OnlyAdds(g, r, n)
  {
    PutDataOk(g, owner, n, bn, bytes);
  }

  // ----- Ranges of a file

  /** Block bn of a file holds some of its bytes from off up to end. */
  predicate InRange(bn: nat, off: nat, end: nat) {
    off < end && Bn(off) <= bn && bn * 512 < end
  }

  /** The pointer in the inode on the way to block bn is missing. */
  predicate AddrMissing(ip: Inode, bn: nat)
    requires |ip.addrs| == NDIRECT + 1
  {
    ip.addrs[if bn < NDIRECT then bn else NDIRECT] == 0
  }

  /** Some pointer in the inode that the bytes from off up to end need is missing. */
  ghost predicate Missing(ip: Inode, off: nat, end: nat)
    requires |ip.addrs| == NDIRECT + 1
  {
    exists bn: nat :: bn < MAXFILE && InRange(bn, off, end) && AddrMissing(ip, bn)
  }

  /** The blocks that hold the bytes from off up to end are all there. */
  ghost predicate RangeBacked(g: Image, n: nat, off: nat, end: nat)
    requires Shape(g) && n < |g.inodes|
  {
    forall bn: nat | bn < MAXFILE && InRange(bn, off, end) :: BlockOf(g, n, bn) != 0
  }

  lemma RangeStep(bn: nat, off: nat, pos: nat, m: nat)
    requires off <= pos && 0 < m && Off(pos) + m <= BSIZE
    ensures InRange(bn, off, pos + m) <==> InRange(bn, off, pos) || bn == Bn(pos)
  {
  }

  /** A block that is there has its pointer in the inode. */
  lemma BlockHasAddr(g: Image, n: nat, bn: nat)
    requires Shape(g) && n < |g.inodes| && bn < MAXFILE && BlockOf(g, n, bn) != 0
    ensures !AddrMissing(g.inodes[n], bn)
  {
  }

  /** Adding blocks takes none away, and the block at `pos` is there. */
  lemma RangeGrows(g: Image, r: Image, n: nat, off: nat, pos: nat, m: nat)
    requires OnlyAdds(g, r, n) && n < |g.inodes| && RangeBacked(g, n, off, pos) && off <= pos < MAXBYTES
    requires 0 < m && Off(pos) + m <= BSIZE && BlockOf(r, n, Bn(pos)) != 0
    ensures RangeBacked(r, n, off, pos + m)
  {
    hide Ptr;
    forall bn: nat | bn < MAXFILE && InRange(bn, off, pos + m)
      ensures BlockOf(r, n, bn) != 0
    {
      RangeStep(bn, off, pos, m);
      if bn != Bn(pos) {
        assert BlockOf(g, n, bn) != 0;
      }
    }
  }

  lemma MissingGrows(ip: Inode, off: nat, pos: nat, m: nat)
    requires |ip.addrs| == NDIRECT + 1 && off <= pos < MAXBYTES && 0 < m && Off(pos) + m <= BSIZE
    ensures Missing(ip, off, pos + m) <==> Missing(ip, off, pos) || AddrMissing(ip, Bn(pos))
  {
    forall bn: nat
      ensures InRange(bn, off, pos + m) <==> InRange(bn, off, pos) || bn == Bn(pos)
    {
      RangeStep(bn, off, pos, m);
    }
    if Missing(ip, off, pos) {
      var bn: nat :| bn < MAXFILE && InRange(bn, off, pos) && AddrMissing(ip, bn);
      assert InRange(bn, off, pos + m);
    }
    if AddrMissing(ip, Bn(pos)) {
      assert InRange(Bn(pos), off, pos + m);
    }
  }

  /** Where every block is there afterwards, the inode is the same exactly if it lacked no
      pointer for the range. */
  lemma SameAddrsIff(g: Image, r: Image, n: nat, off: nat, end: nat)
    requires Shape(g) && Shape(r) && n < |g.inodes| == |r.inodes| && RangeBacked(r, n, off, end)
    requires !Missing(g.inodes[n], off, end) ==> r.inodes == g.inodes
    ensures r.inodes[n].addrs == g.inodes[n].addrs ==> !Missing(g.inodes[n], off, end)
    ensures !Missing(g.inodes[n], off, end) <==> r.inodes == g.inodes
  {
    if Missing(g.inodes[n], off, end) {
      var bn: nat :| bn < MAXFILE && InRange(bn, off, end) && AddrMissing(g.inodes[n], bn);
      assert BlockOf(r, n, bn) != 0;
      BlockHasAddr(r, n, bn);
    }
  }

  lemma HoleFreeHasAll(g: Image, n: nat, off: nat, end: nat)
    requires Shape(g) && n < |g.inodes| && HoleFree(g, n) && end <= g.inodes[n].size
    ensures RangeBacked(g, n, off, end) && !Missing(g.inodes[n], off, end)
  {
    forall bn: nat | bn < MAXFILE && InRange(bn, off, end)
      ensures BlockOf(g, n, bn) != 0 && !AddrMissing(g.inodes[n], bn)
    {
      BlockHasAddr(g, n, bn);
    }
  }

  lemma RangeEmpty(g: Image, n: nat, off: nat)
    requires Shape(g) && n < |g.inodes|
    ensures RangeBacked(g, n, off, off) && !Missing(g.inodes[n], off, off)
  {
  }

  lemma BackedStays(g: Image, r: Image, n: nat, end: nat)
    requires OnlyAdds(g, r, n) && n < |g.inodes| && Backed(g, n, end)
    ensures Backed(r, n, end)
  {
    hide Ptr;
    forall bn: nat | bn < MAXFILE && bn * 512 < end
      ensures BlockOf(r, n, bn) != 0
    {
      assert BlockOf(g, n, bn) != 0;
    }
  }

  lemma OnlyAddsKeepsSize(g: Image, r: Image, n: nat)
    requires OnlyAdds(g, r, n) && n < |g.inodes|
    ensures Shape(r) && |r.inodes| == |g.inodes| && r.inodes[n].size == g.inodes[n].size
  {
    assert r.inodes[n].(addrs := g.inodes[n].addrs) == g.inodes[n];
  }

  /** Inode `n` has kept its type, its link count and every pointer it had. */
  ghost predicate KeepsNode(g: Image, r: Image, n: nat) {
    && Shape(g) && Shape(r) && n < |g.inodes| == |r.inodes|
    && r.inodes[n].kind == g.inodes[n].kind && r.inodes[n].nlink == g.inodes[n].nlink
    && forall x | IsSlot(|g.inodes|, x) && x.inum == n && Ptr(g, x) != 0 :: Ptr(r, x) == Ptr(g, x)
  }

  lemma OnlyAddsKeepsNode(g: Image, r: Image, n: nat, size: nat)
    requires OnlyAdds(g, r, n) && n < |g.inodes|
    ensures KeepsNode(g, SetSize(r, n, size), n)
  {
    var q := SetSize(r, n, size);
    assert r.inodes[n].(addrs := g.inodes[n].addrs) == g.inodes[n];
    forall x | IsSlot(|g.inodes|, x) && x.inum == n && Ptr(g, x) != 0
      ensures Ptr(q, x) == Ptr(g, x)
    {
      assert Ptr(r, x) == Ptr(g, x);
    }
  }

  lemma SameRest(g: Image, r: Image, n: nat)
    requires OnlyAdds(g, r, n) && n < |g.inodes|
    ensures |r.inodes| == |g.inodes| && r.inodes[n] == g.inodes[n].(addrs := r.inodes[n].addrs)
  {
    assert r.inodes[n].(addrs := g.inodes[n].addrs) == g.inodes[n];
  }

  /** Other files keep their blocks. */
  lemma OthersHoleFree(g: Image, r: Image, n: nat, m: nat)
    requires OnlyAdds(g, r, n) && m < |g.inodes| && m != n && HoleFree(g, m)
    ensures HoleFree(r, m)
  {
    hide Ptr;
    assert r.inodes[m] == g.inodes[m];
    forall bn: nat | bn < MAXFILE && bn * 512 < r.inodes[m].size
      ensures BlockOf(r, m, bn) != 0
    {
      assert BlockOf(g, m, bn) != 0;
    }
  }

  /** What writei() leaves behind: file `n` is the old byte array with `src` written at
      `off`, without holes if it had none, and every other file is as it was. */
  ghost predicate WriteDone(g: Image, r: Image, n: nat, off: nat, src: seq<Byte>)
    requires Shape(g) && n < |g.inodes| && off <= g.inodes[n].size <= MAXBYTES
  {
    && Shape(r) && |r.inodes| == |g.inodes| && r.inodes[n].size <= MAXBYTES
    && Content(r, n) == Written(Content(g, n), off, src) && (HoleFree(g, n) ==> HoleFree(r, n))
    && forall m: nat | m < |g.inodes| && m != n ::
         && r.inodes[m] == g.inodes[m]
         && (g.inodes[m].size <= MAXBYTES ==> Content(r, m) == Content(g, m))
         && (HoleFree(g, m) ==> HoleFree(r, m))
  }

  lemma WriteIsDone(g: Image, r: Image, n: nat, off: nat, src: seq<Byte>)
    requires OnlyAdds(g, r, n) && Patched(g, r, n, off, src) && n < |g.inodes|
    requires off <= g.inodes[n].size <= MAXBYTES && off + |src| <= MAXBYTES && RangeBacked(r, n, off, off + |src|)
    ensures var size := if g.inodes[n].size < off + |src| then off + |src| else g.inodes[n].size;
      WriteDone(g, SetSize(r, n, size), n, off, src)
  {
    hide Ptr, ByteAt, HoleFree, Patched, RangeBacked, OnlyAdds;
    OnlyAddsKeepsSize(g, r, n);
    var size := if g.inodes[n].size < off + |src| then off + |src| else g.inodes[n].size;
    var q := SetSize(r, n, size);
    SizeKeepsBytes(g, r, n, off, src, size);
    PatchedIsWritten(g, q, n, off, src);
    if HoleFree(g, n) {
      StaysHoleFree(g, r, n, off, off + |src|, size);
    }
    forall m: nat | m < |g.inodes| && m != n
      ensures r.inodes[m] == g.inodes[m] && (g.inodes[m].size <= MAXBYTES ==> Content(q, m) == Content(g, m))
      ensures HoleFree(g, m) ==> HoleFree(q, m)
    {
      OtherInode(g, r, n, m);
      if g.inodes[m].size <= MAXBYTES {
        PatchedOthers(g, q, n, off, src, m);
      }
      if HoleFree(g, m) {
        OthersHoleFree(g, r, n, m);
        SizeOthers(r, n, m, size);
      }
    }
  }

  lemma OtherInode(g: Image, r: Image, n: nat, m: nat)
    requires OnlyAdds(g, r, n) && m < |g.inodes| && m != n
    ensures |r.inodes| == |g.inodes| && r.inodes[m] == g.inodes[m]
  {
  }

  lemma StaysHoleFree(g: Image, r: Image, n: nat, off: nat, end: nat, size: nat)
    requires OnlyAdds(g, r, n) && n < |g.inodes| && HoleFree(g, n) && RangeBacked(r, n, off, end)
    requires off <= g.inodes[n].size && size == (if g.inodes[n].size < end then end else g.inodes[n].size) <= MAXBYTES
    ensures HoleFree(SetSize(r, n, size), n)
  {
    BackedStays(g, r, n, g.inodes[n].size);
    hide Ptr, OnlyAdds;
    assert Backed(r, n, size) by {
      forall bn: nat | bn < MAXFILE && bn * 512 < size
        ensures BlockOf(r, n, bn) != 0
      {
        if g.inodes[n].size <= bn * 512 {
          assert InRange(bn, off, end);
        }
      }
    }
    SizeKeepsBacked(r, n, size, size);
  }

  lemma SizeOthers(g: Image, n: nat, m: nat, size: nat)
    requires Shape(g) && n < |g.inodes| && m < |g.inodes| && m != n && HoleFree(g, m)
    ensures HoleFree(SetSize(g, n, size), m)
  {
    var q := SetSize(g, n, size);
    forall bn: nat | bn < MAXFILE && bn * 512 < q.inodes[m].size
      ensures BlockOf(q, m, bn) != 0
    {
      assert BlockOf(g, m, bn) != 0;
    }
  }

  /** How far writei()'s loop has come: `src[..tot]` is written, blocks have only been added,
      and no pointer of the inode has changed if none was missing. */
  ghost predicate Progress(g: Image, r: Image, n: nat, off: nat, src: seq<Byte>, tot: nat) {
    && tot <= |src| && n < |g.inodes| && Shape(g) && Shape(r) && |r.inodes| == |g.inodes|
    && Patched(g, r, n, off, src[..tot]) && OnlyAdds(g, r, n)
    && RangeBacked(r, n, off, off + tot)
    && (!Missing(g.inodes[n], off, off + tot) ==> r.inodes == g.inodes)
  }

  lemma ProgressBounds(g: Image, r: Image, n: nat, off: nat, src: seq<Byte>, tot: nat)
    requires Progress(g, r, n, off, src, tot)
    ensures n < |g.inodes| == |r.inodes| && Shape(g) && Shape(r)
  {
  }

  lemma ProgressStart(g: Image, n: nat, off: nat, src: seq<Byte>)
    requires Shape(g) && n < |g.inodes|
    ensures Progress(g, g, n, off, src, 0)
  {
    assert src[..0] == [];
    RangeEmpty(g, n, off);
  }

  lemma ProgressStep(g: Image, r: Image, q: Image, n: nat, off: nat, src: seq<Byte>, tot: nat, m: nat)
    requires Progress(g, r, n, off, src, tot) && 0 < m && tot + m <= |src|
    requires off + tot < MAXBYTES && Off(off + tot) + m <= BSIZE
    requires Patched(r, q, n, off + tot, src[tot..tot + m]) && OnlyAdds(r, q, n)
    requires BlockOf(q, n, Bn(off + tot)) != 0
    requires !AddrMissing(r.inodes[n], Bn(off + tot)) ==> q.inodes == r.inodes
    ensures Progress(g, q, n, off, src, tot + m)
  {
    hide RangeBacked, BlockOf, Missing, AddrMissing;
    RangeGrows(r, q, n, off, off + tot, m);
    MissingGrows(g.inodes[n], off, off + tot, m);
    OnlyAddsTrans(g, r, q, n);
    PatchedTwice(g, r, q, n, off, src[..tot], src[tot..tot + m]);
    assert src[..tot] + src[tot..tot + m] == src[..tot + m];
  }

  lemma ProgressDone(g: Image, r: Image, n: nat, off: nat, src: seq<Byte>)
    requires Progress(g, r, n, off, src, |src|)
    ensures Shape(g) && Shape(r) && OnlyAdds(g, r, n) && Patched(g, r, n, off, src)
      && RangeBacked(r, n, off, off + |src|)
    ensures |r.inodes| == |g.inodes| && r.inodes[n].size == g.inodes[n].size
    ensures r.inodes[n] == g.inodes[n] <==> !Missing(g.inodes[n], off, off + |src|)
  {
    hide RangeBacked, Missing;
    OnlyAddsKeepsSize(g, r, n);
    assert src[..|src|] == src;
    SameAddrsIff(g, r, n, off, off + |src|);
  }

  lemma PtrInRange(g: Image, owner: Owner, x: Slot)
    requires Shape(g) && FsOk(g, owner) && IsSlot(|g.inodes|, x) && Ptr(g, x) != 0
    ensures Ptr(g, x) < |g.blocks|
  {
    assert SlotOk(g, owner, x);
    assert OwnedOk(g, owner, Ptr(g, x));
  }

  lemma SameIsSame(g: Image, n: nat)
    requires Shape(g)
    ensures SameBytes(g, g) && OnlyAdds(g, g, n)
  {
  }

  lemma HasAddrs(g: Image, n: nat)
    requires Shape(g) && n < |g.inodes|
    ensures |g.inodes[n].addrs| == NDIRECT + 1
  {
  }
}
