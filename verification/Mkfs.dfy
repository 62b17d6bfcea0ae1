/** mkfs.c: how the first image is built, block after block, and that it is a sound file
    system of the kind fs.c keeps up. */
module Mkfs {

  import opened FsSpec
  import opened FsFile
  import opened FsAlloc
  import opened FsCost

  /** The first `used` blocks and no others are marked. */
  ghost predicate FirstUsed(bm: Bitmap, used: nat) {
    forall b: nat | b < 8 * |bm| :: Used(bm, b) <==> b < used
  }

  /** balloc() of mkfs: a bit map with the first `used` bits set. */
  method Bitmap0(used: nat) returns (bm: Bitmap)
    requires used < 4096
    ensures |bm| == 512 && FirstUsed(bm, used)
  {
    hide Mask, HasBit;
    bm := seq(512, _ => 0 as bv8);
    NoneUsed(bm);
    for i := 0 to used
      invariant |bm| == 512 && FirstUsed(bm, i)
    {
      OneMoreUsed(bm, i);
      bm := bm[i / 8 := bm[i / 8] | Mask(i % 8)];
    }
  }

  lemma NoneUsed(bm: Bitmap)
    requires forall i | 0 <= i < |bm| :: bm[i] == 0
    ensures FirstUsed(bm, 0)
  {
  }

  lemma OneMoreUsed(bm: Bitmap, i: nat)
    requires FirstUsed(bm, i) && i < 8 * |bm|
    ensures FirstUsed(SetUsed(bm, i), i + 1)
  {
    hide Used;
    forall b: nat | b < 8 * |bm|
      ensures Used(SetUsed(bm, i), b) <==> b < i + 1
    {
      SetUsedAt(bm, i, b);
    }
  }

  /** The bit map can be filled in last: only what it says matters. */
  lemma OtherBits(g: Image, owner: Owner, bm: Bitmap, used: nat)
    requires FsOk(g, owner) && FirstUsed(g.bitmap, used) && FirstUsed(bm, used) && |g.blocks| <= 8 * |bm|
      && |bm| == |g.bitmap|
    ensures FsOk(g.(bitmap := bm), owner)
  {
    hide Used, PointersOk;
    PointersIgnoreBits(g, owner, bm);
    forall b: nat | b < |g.blocks|
      ensures Used(bm, b) <==> Used(g.bitmap, b)
    {
    }
  }

  /** Blocks are used up in order, and the ones to come are still zero. */
  ghost predicate Packed(marks: Bitmap, blocks: seq<Block>, used: nat) {
    && |marks| == 512 && FirstUsed(marks, used) && used <= |blocks| <= 8 * |marks|
    && forall b | used <= b < |blocks| :: blocks[b].Zeroed?
  }

  /** Inodes are used up in order too. */
  ghost predicate Unborn(inodes: seq<Inode>, used: nat) {
    used <= |inodes| && forall n | used <= n < |inodes| :: inodes[n] == Inode(0, 0, 0, seq(NDIRECT + 1, _ => 0))
  }

  lemma UnbornKeeps(inodes: seq<Inode>, used: nat, n: nat, ip: Inode)
    requires Unborn(inodes, used) && n < used
    ensures Unborn(inodes[n := ip], used)
  {
  }

  class Builder {
    const nmeta: nat
    var blocks: seq<Block>
    var inodes: seq<Inode>
    var freeblock: nat
    var freeinode: nat
    ghost var marks: Bitmap    // what the bit map will have to say
    ghost var owner: Owner

    ghost function Img(): (g: Image)
      reads this
    {
      Image(nmeta, marks, blocks, inodes)
    }

    ghost predicate Valid()
      reads this
    {
      FsOk(Img(), owner) && Packed(marks, blocks, freeblock) && Unborn(inodes, freeinode)
    }

    constructor (nmeta: nat, size: nat, ninodes: nat)
      requires 0 < nmeta <= size < 4096 && 1 <= ninodes
      ensures Valid() && owner == map[] && freeblock == nmeta && |blocks| == size && |inodes| == ninodes
      ensures freeinode == 1
    {
      hide Used;
      this.nmeta := nmeta;
      blocks := seq(size, _ => Zeroed);
      inodes := seq(ninodes, _ => Inode(0, 0, 0, seq(NDIRECT + 1, _ => 0)));
      freeblock, freeinode := nmeta, 1;
      owner := map[];
      var bm := Bitmap0(nmeta);
      marks := bm;
      new;
      EmptyOk(Img());
    }

    method Ialloc(kind: int) returns (inum: nat)
      requires Valid() && freeinode < |inodes|
      modifies `inodes, `freeinode
      ensures Valid() && inum == old(freeinode) && freeinode == inum + 1
      ensures inodes == old(inodes)[inum := Inode(kind, 1, 0, seq(NDIRECT + 1, _ => 0))]
      ensures Exact(Img(), inum) && Content(Img(), inum) == []
    {
      inum := freeinode;
      BornOk(Img(), owner, inum, kind);
      inodes := inodes[inum := Inode(kind, 1, 0, seq(NDIRECT + 1, _ => 0))];
      freeinode := freeinode + 1;
    }

    /** Takes the next block of the image for address i of an inode. */
    method NewAddr(n: nat, i: nat) returns (b: nat)
      requires Valid() && n < freeinode && i <= NDIRECT && inodes[n].addrs[i] == 0 && freeblock < |blocks|
      modifies this
      ensures Valid() && SameBytes(old(Img()), Img()) && OnlyAdds(old(Img()), Img(), n)
      ensures freeblock == old(freeblock) + 1 && freeinode == old(freeinode) && |blocks| == |old(blocks)|
      ensures 0 < b < |blocks| && inodes[n].addrs[i] == b && OtherSlots(old(Img()), Img(), AddrSlot(n, i))
    {
      hide Used, SetUsed, SameBytes, OnlyAdds, OtherSlots;
      b := freeblock;
      AllocAddr(Img(), owner, n, i, b);
      AddrOthers(Img(), owner, n, i, b);
      OneMoreUsed(marks, b);
      freeblock := freeblock + 1;
      inodes := inodes[n := inodes[n].(addrs := inodes[n].addrs[i := b])];
      marks := SetUsed(marks, b);
      owner := owner[b := AddrSlot(n, i)];
      assert old(blocks)[b := Zeroed] == old(blocks);
      assert Img() == SetAddr(Allocated(old(Img()), b), n, i, b);
    }

    /** Takes the next block of the image for entry j of an indirect block. */
    method NewEntry(n: nat, j: nat) returns (b: nat)
      requires Valid() && n < freeinode && j < NINDIRECT && freeblock < |blocks|
      requires 0 < inodes[n].addrs[NDIRECT] < |blocks| && Ptr(Img(), Entry(n, j)) == 0
      modifies this
      ensures Valid() && SameBytes(old(Img()), Img()) && OnlyAdds(old(Img()), Img(), n)
      ensures freeblock == old(freeblock) + 1 && freeinode == old(freeinode) && |blocks| == |old(blocks)|
      ensures 0 < b < |blocks| && Ptr(Img(), Entry(n, j)) == b && inodes == old(inodes)
        && OtherSlots(old(Img()), Img(), Entry(n, j))
    {
      hide Used, SetUsed, SameBytes, OnlyAdds, OtherSlots;
      var t := inodes[n].addrs[NDIRECT];
      b := freeblock;
      TableBelow(Img(), owner, n, freeblock);
      AllocEntry(Img(), owner, n, j, b);
      EntryOthers(Img(), owner, n, j, b);
      OneMoreUsed(marks, b);
      freeblock := freeblock + 1;
      blocks := blocks[t := Table(AsTable(blocks[t])[j := b])];
      marks := SetUsed(marks, b);
      owner := owner[b := Entry(n, j)];
      assert old(blocks)[b := Zeroed] == old(blocks);
      assert Img() == SetEntry(Allocated(old(Img()), b), t, j, b);
    }

    /** The block that holds block fbn of file n, with new blocks where pointers are missing.
        False when the image is too small. */
    method BlockFor(n: nat, fbn: nat) returns (ok: bool, x: nat)
      requires Valid() && n < freeinode && fbn < MAXFILE
      modifies this
      ensures ok ==> Valid() && Shape(Img()) && SameBytes(old(Img()), Img()) && OnlyAdds(old(Img()), Img(), n)
      ensures ok ==>
        n < |inodes| && 0 < x < |blocks| && BlockOf(Img(), n, fbn) == x && OtherBlocks(old(Img()), Img(), n, fbn)
      ensures n < |old(inodes)| && |old(inodes)[n].addrs| == NDIRECT + 1
      ensures ok && !AddrMissing(old(inodes)[n], fbn) ==> inodes == old(inodes)
      ensures ok <==> old(freeblock) + Cost(old(Img()), n, fbn) <= |blocks|
      ensures ok ==> freeblock == old(freeblock) + Cost(old(Img()), n, fbn)
      ensures freeinode == old(freeinode) && |blocks| == |old(blocks)|
    {
      hide FsOk, SameBytes, OnlyAdds, Shape, Packed, Unborn, OtherSlots, OtherBlocks;
      ghost var g := Img();
      Sizes();
      HasShape(g, owner);
      SameIsSame(g, n);
      HasAddrs(g, n);
      NoOthers(g, n, fbn);
      x := 0;
      if fbn < NDIRECT {
        if inodes[n].addrs[fbn] == 0 {
          if freeblock >= |blocks| {
            return false, x;
          }
          x := NewAddr(n, fbn);
          HasShape(Img(), owner);
          Sizes();
          SlotsAreBlocks(g, Img(), n, fbn, Direct(n, fbn));
        } else {
          PtrInRange(g, owner, Direct(n, fbn));
          x := inodes[n].addrs[fbn];
        }
        return true, x;
      }
      ok, x := BlockInTable(n, fbn);
    }

    /** The half of that for blocks behind the table. */
    method BlockInTable(n: nat, fbn: nat) returns (ok: bool, x: nat)
      requires Valid() && n < freeinode <= |inodes| && NDIRECT <= fbn < MAXFILE && |inodes[n].addrs| == NDIRECT + 1
      modifies this
      ensures ok ==> Valid() && Shape(Img()) && SameBytes(old(Img()), Img()) && OnlyAdds(old(Img()), Img(), n)
      ensures ok ==> n < |inodes| && 0 < x < |blocks| && BlockOf(Img(), n, fbn) == x
      ensures ok ==> OtherBlocks(old(Img()), Img(), n, fbn)
      ensures ok && old(inodes[n].addrs[NDIRECT]) != 0 ==> inodes == old(inodes)
      ensures ok <==> old(freeblock) + Cost(old(Img()), n, fbn) <= |blocks|
      ensures ok ==> freeblock == old(freeblock) + Cost(old(Img()), n, fbn)
      ensures freeinode == old(freeinode) && |blocks| == |old(blocks)|
    {
      hide FsOk, SameBytes, OnlyAdds, Shape, Packed, Unborn, OtherSlots, OtherBlocks;
      ghost var g := Img();
      HasShape(g, owner);
      SameIsSame(g, n);
      NoOthers(g, n, fbn);
      Sizes();
      x := 0;
      if inodes[n].addrs[NDIRECT] == 0 {
        if freeblock >= |blocks| {
          return false, x;
        }
        var _ := NewAddr(n, NDIRECT);
        Sizes();
        HasShape(Img(), owner);
        SlotsAreBlocks(g, Img(), n, fbn, Indirect(n));
        NewTableEmpty(g, Img(), n, fbn - NDIRECT);
      } else {
        PtrInRange(g, owner, Indirect(n));
      }
      ghost var m := Img();
      Sizes();
      HasShape(m, owner);
      HasAddrs(m, n);
      SameIsSame(m, n);
      ok, x := EntryFor(n, fbn - NDIRECT);
      if ok {
        Sizes();
        HasShape(Img(), owner);
        SameBytesTrans(g, m, Img());
        OnlyAddsTrans(g, m, Img(), n);
        SlotsAreBlocks(m, Img(), n, fbn, Entry(n, fbn - NDIRECT));
        OtherBlocksTwice(g, m, Img(), n, fbn);
      }
    }

    method EntryFor(n: nat, j: nat) returns (ok: bool, x: nat)
      requires Valid() && n < freeinode <= |inodes| && |inodes[n].addrs| == NDIRECT + 1 && j < NINDIRECT
        && 0 < inodes[n].addrs[NDIRECT] < |blocks|
      modifies this
      ensures ok ==> Valid() && SameBytes(old(Img()), Img()) && OnlyAdds(old(Img()), Img(), n)
      ensures ok ==>
        inodes == old(inodes) && 0 < x < |blocks| && Ptr(Img(), Entry(n, j)) == x
          && OtherSlots(old(Img()), Img(), Entry(n, j))
      ensures freeinode == old(freeinode) && |blocks| == |old(blocks)|
      ensures ok <==> Ptr(old(Img()), Entry(n, j)) != 0 || old(freeblock) < |blocks|
      ensures ok ==> freeblock == old(freeblock) + if Ptr(old(Img()), Entry(n, j)) == 0 then 1 else 0
    {
      hide FsOk, SameBytes, OnlyAdds, Packed, Unborn, OtherSlots;
      HasShape(Img(), owner);
      NoOtherSlots(Img(), Entry(n, j));
      SameIsSame(Img(), n);
      var indirect := AsTable(blocks[inodes[n].addrs[NDIRECT]]);
      x := indirect[j];
      if x == 0 {
        if freeblock >= |blocks| {
          return false, x;
        }
        x := NewEntry(n, j);
      } else {
        PtrInRange(Img(), owner, Entry(n, j));
      }
      return true, x;
    }

    lemma Sizes()
      requires Valid()
      ensures freeinode <= |inodes| && freeblock <= |blocks|
    {
    }

    /** One round of iappend's loop. */
    method AppendChunk(n: nat, pos: nat, piece: seq<Byte>) returns (ok: bool)
      requires Valid() && n < freeinode && pos < MAXBYTES && Off(pos) + |piece| <= BSIZE
      modifies this
      ensures ok ==> Valid() && Patched(old(Img()), Img(), n, pos, piece) && OnlyAdds(old(Img()), Img(), n)
      ensures ok ==> n < |inodes| && BlockOf(Img(), n, Bn(pos)) != 0 && OtherBlocks(old(Img()), Img(), n, Bn(pos))
      ensures n < |old(inodes)| && |old(inodes)[n].addrs| == NDIRECT + 1
      ensures ok && !AddrMissing(old(inodes)[n], Bn(pos)) ==> inodes == old(inodes)
      ensures ok <==> old(freeblock) + Cost(old(Img()), n, Bn(pos)) <= |blocks|
      ensures ok ==> freeblock == old(freeblock) + Cost(old(Img()), n, Bn(pos))
      ensures freeinode == old(freeinode) && |blocks| == |old(blocks)|
    {
      hide FsOk, SameBytes, OnlyAdds, Shape, Unborn, Patched, FirstUsed, OtherBlocks;
      var x;
      ok, x := BlockFor(n, Bn(pos));
      if !ok {
        return;
      }
      ghost var g := Img();
      ghost var o := old(Img());
      var bytes := Overlaid(AsBytes(blocks[x]), Off(pos), piece);
      PutPiece(g, owner, n, pos, piece, freeblock);
      blocks := blocks[x := Data(bytes)];
      SameBytesThenPatched(o, g, Img(), n, pos, piece);
      OnlyAddsTrans(o, g, Img(), n);
      OtherBlocksTwice(o, g, Img(), n, Bn(pos));
    }

    /** The loop of iappend. */
    method AppendAll(n: nat, data: seq<Byte>) returns (ok: bool)
      requires Valid() && n < freeinode && n < |inodes| && Exact(Img(), n) && inodes[n].size + |data| <= MAXBYTES
      modifies this
      ensures freeinode == old(freeinode) && |blocks| == |old(blocks)|
      ensures ok ==> Valid() && Progress(old(Img()), Img(), n, old(inodes[n].size), data, |data|)
      ensures ok ==> NoExtra(old(Img()), Img(), n, old(inodes[n].size) + |data|)
      ensures var need := AppendNeed(old(Img()), n, |data|);
        && (ok <==> old(freeblock) + need <= |old(blocks)|)
        && (ok ==> freeblock == old(freeblock) + need)
    {
      hide FsOk, HoleFree, Shape, Progress, Packed, Unborn, NoExtra, Exact, Midway, Need, After;
      ghost var g := Img();
      HasShape(g, owner);
      ExactStart(g, n);
      ProgressStart(g, n, inodes[n].size, data);
      MidwayStart(g, n, inodes[n].size, |data|);
      var size := inodes[n].size;
      var tot := 0;
      ghost var first := freeblock;
      while tot < |data|
        invariant 0 <= tot <= |data| && Valid() && freeinode == old(freeinode)
        invariant Progress(g, Img(), n, size, data, tot) && NoExtra(g, Img(), n, size + tot)
        invariant Midway(g, Img(), n, size, tot, |data|, freeblock - first) && |blocks| == |old(blocks)|
      {
        var n1;
        ok, n1 := AppendNext(n, size, data, tot, g, first);
        if !ok {
          return;
        }
        tot := tot + n1;
      }
      Sizes();
      MidwayEnds(g, Img(), n, size, |data|, freeblock - first);
      ok := true;
    }

    /** One round of the loop, in terms of the whole append. */
    method AppendNext(n: nat, size: nat, data: seq<Byte>, tot: nat, ghost g: Image, ghost first: nat)
          returns (ok: bool, n1: nat)
      requires Valid() && n < freeinode && Shape(g) && n < |g.inodes| && HoleFree(g, n) && size == g.inodes[n].size
      requires tot < |data| && size + |data| <= MAXBYTES && Progress(g, Img(), n, size, data, tot)
        && NoExtra(g, Img(), n, size + tot)
      requires Midway(g, Img(), n, size, tot, |data|, freeblock - first)
      modifies this
      ensures freeinode == old(freeinode) && |blocks| == |old(blocks)| && 0 < n1 && tot + n1 <= |data|
      ensures ok ==> Midway(g, Img(), n, size, tot + n1, |data|, freeblock - first)
      ensures !ok ==> |blocks| - first < Need(g, n, Bn(size), After(size, |data|))
      ensures ok ==> Valid() && Progress(g, Img(), n, size, data, tot + n1) && NoExtra(g, Img(), n, size + tot + n1)
    {
      hide FsOk, Patched, OnlyAdds, BlockOf, HoleFree, Shape, Progress, Packed, Unborn, NoExtra, OtherBlocks,
        AddrMissing,
        Midway, Cost, Need, After;
      ghost var r := Img();
      ProgressBounds(g, r, n, size, data, tot);
      var off := size + tot;
      n1 := ChunkLen(off, |data| - tot);
      ok := AppendChunk(n, off, data[tot..tot + n1]);
      if ok {
        AppendStep(g, r, Img(), n, size, data, tot, n1);
        NoExtraStep(g, r, Img(), n, off, n1);
        MidwayNext(g, r, Img(), n, size, tot, |data|, n1, old(freeblock) - first);
      } else {
        MidwayFails(g, r, n, size, tot, |data|, old(freeblock) - first, |blocks| - old(freeblock));
      }
    }

    /** iappend(): adds bytes at the end of a file; false exactly when the image is too small for
        the blocks that are missing. */
    method Iappend(n: nat, data: seq<Byte>) returns (ok: bool)
      requires Valid() && n < freeinode && n < |inodes| && Exact(Img(), n) && inodes[n].size + |data| <= MAXBYTES
      modifies this
      ensures freeinode == old(freeinode) && |blocks| == |old(blocks)|
      ensures ok ==>
        Valid() && WriteDone(old(Img()), Img(), n, old(inodes[n].size), data) && n < |inodes| && Exact(Img(), n)
      ensures ok ==> KeepsNode(old(Img()), Img(), n)
      ensures ok ==>
        inodes[n] == old(inodes[n]).(addrs := inodes[n].addrs, size := old(inodes[n].size) + |data|)
      ensures var need := AppendNeed(old(Img()), n, |data|);
        && (ok <==> old(freeblock) + need <= |old(blocks)|)
        && (ok ==> freeblock == old(freeblock) + need)
    {
      hide FsOk, WriteDone, Patched, OnlyAdds, RangeBacked, HoleFree, Shape, Progress, Packed, Unborn, NoExtra, Exact,
        KeepsNode;
      ghost var g := Img();
      HasShape(g, owner);
      ExactStart(g, n);
      var off := inodes[n].size + |data|;
      ok := AppendAll(n, data);
      if ok {
        ProgressDone(g, Img(), n, g.inodes[n].size, data);
        WriteIsDone(g, Img(), n, g.inodes[n].size, data);
        OnlyAddsKeepsNode(g, Img(), n, off);
        SameRest(g, Img(), n);
        SizeKeeps(Img(), owner, n, off);
        UnbornKeeps(inodes, freeinode, n, inodes[n].(size := off));
        ExactEnd(g, Img(), n, off);
        inodes := inodes[n := inodes[n].(size := off)];
      }
    }

    /** The end of main(): rounds up the size of the root directory and writes the bit map. */
    method Finish(root: nat) returns (bm: Bitmap)
      requires Valid() && root < freeinode && root < |inodes| && freeblock < 4096 && Exact(Img(), root)
        && inodes[root].size < MAXBYTES
      modifies `inodes
      ensures |bm| == 512 && FsOk(Image(nmeta, bm, blocks, inodes), owner)
      ensures forall b: nat | b < 4096 :: Used(bm, b) <==> b < freeblock
      ensures inodes == old(inodes)[root := old(inodes[root]).(size := old(Bn(inodes[root].size)) * 512 + 512)]
      ensures root < |inodes| && inodes[root].size == old(Bn(inodes[root].size)) * 512 + 512
      ensures HoleFree(Img(), root) <==> old(inodes[root].size) % 512 != 0
      ensures old(inodes[root].size) % 512 == 0 ==> BlockOf(Img(), root, old(inodes[root].size) / 512) == 0
    {
      hide FsOk, Used;
      ghost var g := Img();
      HasShape(g, owner);
      var off := (inodes[root].size / 512 + 1) * 512;
      SizeKeeps(g, owner, root, off);
      inodes := inodes[root := inodes[root].(size := off)];
      assert Img() == SetSize(g, root, off);
      RoundedHoleFree(g, root, off);
      bm := Bitmap0(freeblock);
      OtherBits(Img(), owner, bm, freeblock);
    }
  }

  /** The blocks that len more bytes at the end of file n need. */
  function AppendNeed(g: Image, n: nat, len: nat): (c: nat)
    requires n < |g.inodes| && |g.inodes[n].addrs| == NDIRECT + 1 && g.inodes[n].size + len <= MAXBYTES
  {
    Need(g, n, Bn(g.inodes[n].size), After(g.inodes[n].size, len))
  }

  lemma EmptyOk(g: Image)
    requires Shape(g) && FirstUsed(g.bitmap, g.nmeta) && forall n | 0 <= n < |g.inodes| ::
      g.inodes[n].addrs == seq(NDIRECT + 1, _ => 0)
    ensures FsOk(g, map[])
  {
    hide Used;
    forall x | IsSlot(|g.inodes|, x)
      ensures SlotOk(g, map[], x)
    {
    }
  }

  lemma BornOk(g: Image, owner: Owner, n: nat, kind: int)
    requires FsOk(g, owner) && n < |g.inodes| && g.inodes[n] == Inode(0, 0, 0, seq(NDIRECT + 1, _ => 0))
    ensures FsOk(g.(inodes := g.inodes[n := Inode(kind, 1, 0, seq(NDIRECT + 1, _ => 0))]), owner)
  {
    var r := g.(inodes := g.inodes[n := Inode(kind, 1, 0, seq(NDIRECT + 1, _ => 0))]);
    forall x | IsSlot(|r.inodes|, x)
      ensures SlotOk(r, owner, x)
    {
      assert SlotOk(g, owner, x);
    }
    forall p | p in owner
      ensures OwnedOk(r, owner, p)
    {
      assert OwnedOk(g, owner, p);
    }
  }

  lemma TableBelow(g: Image, owner: Owner, n: nat, used: nat)
    requires FsOk(g, owner) && n < |g.inodes| && g.inodes[n].addrs[NDIRECT] != 0 && FirstUsed(g.bitmap, used)
    ensures g.inodes[n].addrs[NDIRECT] < used
  {
    hide Used;
    assert SlotOk(g, owner, Indirect(n));
    assert OwnedOk(g, owner, g.inodes[n].addrs[NDIRECT]);
  }

  lemma PutPiece(g: Image, owner: Owner, n: nat, pos: nat, piece: seq<Byte>, used: nat)
    requires FsOk(g, owner) && n < |g.inodes| && pos < MAXBYTES && Off(pos) + |piece| <= BSIZE
      && FirstUsed(g.bitmap, used)
    requires 0 < BlockOf(g, n, Bn(pos)) < |g.blocks|
    ensures var b := BlockOf(g, n, Bn(pos));
            var r := PutData(g, b, Overlaid(AsBytes(g.blocks[b]), Off(pos), piece));
            && b < used && FsOk(r, owner) && Patched(g, r, n, pos, piece) && OnlyAdds(g, r, n)
            && Shape(r) && BlockOf(r, n, Bn(pos)) == b && OtherBlocks(g, r, n, Bn(pos))
  {
    hide Used, Patched;
    var b := BlockOf(g, n, Bn(pos));
    PutPieceBytes(g, owner, n, pos, piece);
    PutDataKeeps(g, owner, n, Bn(pos), Overlaid(AsBytes(g.blocks[b]), Off(pos), piece));
    var x := SlotFor(n, Bn(pos));
    assert SlotOk(g, owner, x);
    assert OwnedOk(g, owner, b);
    PutDataOk(g, owner, n, Bn(pos), Overlaid(AsBytes(g.blocks[b]), Off(pos), piece));
  }

  lemma AppendStep(g: Image, r: Image, q: Image, n: nat, off: nat, data: seq<Byte>, tot: nat, m: nat)
    requires Progress(g, r, n, off, data, tot) && 0 < m && tot + m <= |data|
    requires off + tot < MAXBYTES && Off(off + tot) + m <= BSIZE
    requires Patched(r, q, n, off + tot, data[tot..tot + m]) && OnlyAdds(r, q, n)
    requires BlockOf(q, n, Bn(off + tot)) != 0
    requires !AddrMissing(r.inodes[n], Bn(off + tot)) ==> q.inodes == r.inodes
    ensures Progress(g, q, n, off, data, tot + m)
  {
    hide Patched, OnlyAdds, RangeBacked, BlockOf, AddrMissing;
    ProgressStep(g, r, q, n, off, data, tot, m);
  }

  /** Rounding up makes a hole exactly when the file ended with its last block. */
  lemma RoundedHoleFree(g: Image, n: nat, off: nat)
    requires Shape(g) && n < |g.inodes| && Exact(g, n) && off == (g.inodes[n].size / 512 + 1) * 512 <= MAXBYTES
    ensures HoleFree(SetSize(g, n, off), n) <==> g.inodes[n].size % 512 != 0
    ensures g.inodes[n].size % 512 == 0 ==> BlockOf(SetSize(g, n, off), n, g.inodes[n].size / 512) == 0
  {
    hide Ptr;
    var q := SetSize(g, n, off);
    var last := g.inodes[n].size / 512;
    forall bn: nat | bn < MAXFILE
      ensures BlockOf(q, n, bn) != 0 <==> bn * 512 < g.inodes[n].size
    {
      SizeSamePtr(g, n, off, SlotFor(n, bn));
      assert BlockOf(g, n, bn) != 0 <==> bn * 512 < g.inodes[n].size;
    }
    assert last < MAXFILE && last * 512 < off;
    assert BlockOf(q, n, last) != 0 <==> last * 512 < g.inodes[n].size;
  }

  lemma SizeSamePtr(g: Image, n: nat, size: nat, x: Slot)
    requires Shape(g) && n < |g.inodes| && IsSlot(|g.inodes|, x)
    ensures Ptr(SetSize(g, n, size), x) == Ptr(g, x)
  {
  }

  // ----- A file has a block exactly for each block of its size

  ghost predicate Exact(g: Image, n: nat)
    requires Shape(g) && n < |g.inodes|
  {
    g.inodes[n].size <= MAXBYTES && forall bn: nat | bn < MAXFILE ::
      BlockOf(g, n, bn) != 0 <==> bn * 512 < g.inodes[n].size
  }

  /** No block has been added from end on. */
  ghost predicate NoExtra(g: Image, r: Image, n: nat, end: nat) {
    && Shape(g) && Shape(r) && n < |g.inodes| == |r.inodes|
    && forall c: nat | c < MAXFILE && end <= c * 512 :: BlockOf(r, n, c) != 0 ==> BlockOf(g, n, c) != 0
  }

  lemma ExactStart(g: Image, n: nat)
    requires Shape(g) && n < |g.inodes| && Exact(g, n)
    ensures HoleFree(g, n) && NoExtra(g, g, n, g.inodes[n].size)
  {
    hide Ptr;
  }

  lemma NoExtraStep(g: Image, r: Image, q: Image, n: nat, pos: nat, m: nat)
    requires NoExtra(g, r, n, pos) && OtherBlocks(r, q, n, Bn(pos)) && 0 < m
    ensures NoExtra(g, q, n, pos + m)
  {
    hide BlockOf;
  }

  lemma ExactEnd(g: Image, r: Image, n: nat, end: nat)
    requires OnlyAdds(g, r, n) && n < |g.inodes| && Exact(g, n) && g.inodes[n].size <= end <= MAXBYTES
    requires RangeBacked(r, n, g.inodes[n].size, end) && NoExtra(g, r, n, end)
    ensures Exact(SetSize(r, n, end), n)
  {
    hide Ptr, OnlyAdds;
    ExactStart(g, n);
    StaysHoleFree(g, r, n, g.inodes[n].size, end, end);
    var q := SetSize(r, n, end);
    forall bn: nat | bn < MAXFILE
      ensures BlockOf(q, n, bn) != 0 <==> bn * 512 < end
    {
      SizeSamePtr(r, n, end, SlotFor(n, bn));
      assert BlockOf(q, n, bn) == BlockOf(r, n, bn);
      assert BlockOf(g, n, bn) != 0 <==> bn * 512 < g.inodes[n].size;
    }
  }
}
