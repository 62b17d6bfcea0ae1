/** balloc, bfree, bmap, itrunc, readi and writei of fs.c. */
module FsCode {
  import opened Optional
  import opened FsSpec
  import opened FsFile
  import opened FsAlloc
  import opened FsCost

  const BPB := 4096

  const WORD := 0x1_0000_0000

  /** How writei() ends: -1, a panic, or with everything written. */
  datatype WriteResult = Rejected | WritePanic | Wrote

  /** How readi() ends: -1, a panic, or with the bytes. */
  datatype ReadResult = Refused | ReadPanic | Got(bytes: seq<Byte>)

  /** Where a read ends: at the end of the file if not before. */
  function EndOf(size: nat, off: nat, count: nat): (e: nat) {
    if off + count > size then size else off + count
  }

  lemma JoinSlices(s: seq<Byte>, a: nat, b: nat, c: nat)
    requires a <= b <= c <= |s|
    ensures s[a..b] + s[b..c] == s[a..c]
  {
  }

  /** The file system as one process sees it while it holds the inodes' locks: `inodes` are
      the in-memory copies, `dinodes` what is on disk.  `inOp` tells whether some operation is
      between begin_op and end_op: if none is, log_write panics. */
  class Fs {
    const nmeta: nat
    const inOp: bool
    var bitmap: Bitmap
    var blocks: seq<Block>
    var inodes: seq<Inode>
    var dinodes: seq<Inode>
    ghost var owner: Owner

    ghost function Img(): (g: Image)
      reads this
    {
      Image(nmeta, bitmap, blocks, inodes)
    }

    ghost predicate Valid()
      reads this
    {
      FsOk(Img(), owner) && |dinodes| == |inodes|
    }

    /** A file system over an image, with every inode in memory as it is on disk. */
    constructor (nmeta: nat, bitmap: Bitmap, blocks: seq<Block>, inodes: seq<Inode>, inOp: bool,
        ghost owner: Owner)
      requires FsOk(Image(nmeta, bitmap, blocks, inodes), owner)
      ensures Valid() && Img() == Image(nmeta, bitmap, blocks, inodes) && dinodes == inodes && this.inOp == inOp
    {
      this.inOp := inOp;
      this.nmeta, this.bitmap, this.blocks, this.inodes, dinodes := nmeta, bitmap, blocks, inodes, inodes;
      this.owner := owner;
    }

    /** balloc(): the first free block, marked and cleared; None where it panics, for want of a
        free block or in log_write. */
    method Balloc() returns (r: Option<nat>)
      requires Shape(Img())
      modifies `bitmap, `blocks
      ensures !inOp ==> r.None?
      ensures inOp && r.None? ==>
        Img() == old(Img()) && forall b: nat | b < |blocks| :: Used(bitmap, b)
      ensures r.Some? ==>
        && r.value < |old(blocks)| && !Used(old(bitmap), r.value)
        && (forall b: nat | b < r.value :: Used(old(bitmap), b))
        && Img() == Allocated(old(Img()), r.value)
    {
      hide Used, SetUsed;
      var b := 0;
      while b < |blocks|
        invariant Img() == old(Img())
        invariant forall c: nat | c < b && c < |blocks| :: Used(bitmap, c)
      {
        var bi := 0;
        while bi < BPB && b + bi < |blocks|
          invariant 0 <= bi <= BPB && Img() == old(Img())
          invariant forall c: nat | c < b + bi && c < |blocks| :: Used(bitmap, c)
        {
          var taken := TestAndSet(b + bi);
          if taken {
            if !inOp {
              return None;
            }
            blocks := blocks[b + bi := Zeroed];
            return Some(b + bi);
          }
          bi := bi + 1;
        }
        b := b + BPB;
      }
      return None;
    }

    /** The test in balloc's inner loop: take block `b` if its bit is clear. */
    method TestAndSet(b: nat) returns (taken: bool)
      requires b < 8 * |bitmap|
      modifies `bitmap
      ensures taken == !Used(old(bitmap), b)
      ensures bitmap == if taken then SetUsed(old(bitmap), b) else old(bitmap)
    {
      hide Mask;
      var m := Mask(b % 8);
      if bitmap[b / 8] & m == 0 {
        bitmap := bitmap[b / 8 := bitmap[b / 8] | m];
        return true;
      }
      return false;
    }

    /** Give inode `n` a new block in address `i`. */
    method AllocInto(n: nat, i: nat) returns (r: Option<nat>)
      requires Valid() && n < |inodes| && i <= NDIRECT && inodes[n].addrs[i] == 0
      modifies this
      ensures r.Some? ==> Valid() && SameBytes(old(Img()), Img()) && OnlyAdds(old(Img()), Img(), n)
      ensures r.Some? ==> Shape(Img()) && |inodes| == |old(inodes)| && |blocks| == |old(blocks)|
      ensures r.Some? ==> 0 < r.value < |blocks| && inodes[n].addrs[i] == r.value && dinodes == old(dinodes)
      ensures Shape(old(Img())) && (r.None? <==> Avail(old(Img()), inOp) == 0)
      ensures r.Some? ==> FreeCount(Img()) + 1 == FreeCount(old(Img())) && OtherSlots(old(Img()), Img(), AddrSlot(n, i))
    {
      hide SameBytes, OnlyAdds, Used, SetUsed, FreeCount, OtherSlots;
      ghost var g := Img();
      r := Balloc();
      if r.None? {
        if inOp {
          NoneFree(g);
        }
      } else {
        AllocAddr(g, owner, n, i, r.value);
        AddrOthers(g, owner, n, i, r.value);
        OneLessFree(g, SetAddr(Allocated(g, r.value), n, i, r.value), r.value);
        inodes := inodes[n := inodes[n].(addrs := inodes[n].addrs[i := r.value])];
        owner := owner[r.value := AddrSlot(n, i)];
        assert Img() == SetAddr(Allocated(old(Img()), r.value), n, i, r.value);
      }
    }

    /** Give file `n` a new block in entry `j` of its indirect block. */
    method AllocIntoTable(n: nat, j: nat) returns (r: Option<nat>)
      requires Valid() && n < |inodes| && j < NINDIRECT
      requires 0 < inodes[n].addrs[NDIRECT] < |blocks| && Ptr(Img(), Entry(n, j)) == 0
      modifies this
      ensures r.Some? ==> Valid() && SameBytes(old(Img()), Img()) && OnlyAdds(old(Img()), Img(), n)
      ensures r.Some? ==> 0 < r.value < |blocks| && Ptr(Img(), Entry(n, j)) == r.value && dinodes == old(dinodes)
      ensures r.Some? ==> inodes == old(inodes)
      ensures Shape(old(Img())) && (r.None? <==> Avail(old(Img()), inOp) == 0)
      ensures r.Some? ==> Shape(Img()) && FreeCount(Img()) + 1 == FreeCount(old(Img()))
      ensures r.Some? ==> OtherSlots(old(Img()), Img(), Entry(n, j))
    {
      hide SameBytes, OnlyAdds, Used, SetUsed, FreeCount, OtherSlots;
      ghost var g := Img();
      var t := inodes[n].addrs[NDIRECT];
      r := Balloc();
      if r.None? {
        if inOp {
          NoneFree(g);
        }
      } else {
        AllocEntry(g, owner, n, j, r.value);
        EntryOthers(g, owner, n, j, r.value);
        OneLessFree(g, SetEntry(Allocated(g, r.value), t, j, r.value), r.value);
        blocks := blocks[t := Table(AsTable(blocks[t])[j := r.value])];
        owner := owner[r.value := Entry(n, j)];
        assert Img() == SetEntry(Allocated(old(Img()), r.value), t, j, r.value);
        assert AsTable(blocks[t])[j] == r.value;
      }
    }

    /** bmap(): the block of file `n` that holds its block `bn`, allocated if need be; None
        where it panics.  No byte of any file changes. */
    method Bmap(n: nat, bn: nat) returns (r: Option<nat>)
      requires Valid() && n < |inodes|
      modifies this
      ensures r.Some? ==>
        && bn < MAXFILE && n < |inodes| && Shape(Img()) && Valid() && SameBytes(old(Img()), Img())
          && OnlyAdds(old(Img()), Img(), n)
        && 0 < r.value < |blocks| && BlockOf(Img(), n, bn) == r.value && dinodes == old(dinodes)
      ensures r.Some? && bn < 12 ==> r.value == inodes[n].addrs[bn]
      ensures r.Some? && 12 <= bn ==>
        && bn < 140 && 0 < inodes[n].addrs[12] < |blocks|
        && r.value == AsTable(blocks[inodes[n].addrs[12]])[bn - 12]
      ensures bn < MAXFILE && BlockOf(old(Img()), n, bn) != 0 ==> r.Some? && Img() == old(Img()) && owner == old(owner)
      ensures r.Some? && !AddrMissing(old(inodes[n]), bn) ==> inodes == old(inodes)
      ensures Shape(old(Img())) && (r.Some? <==> bn < MAXFILE && Cost(old(Img()), n, bn) <= Avail(old(Img()), inOp))
      ensures r.Some? ==> FreeCount(Img()) + Cost(old(Img()), n, bn) == FreeCount(old(Img()))
      ensures r.Some? ==> OtherBlocks(old(Img()), Img(), n, bn)
    {
      hide FsOk, SameBytes, OnlyAdds, Shape, FreeCount, OtherSlots, OtherBlocks;
      ghost var g := Img();
      HasShape(g, owner);
      SameIsSame(g, n);
      HasAddrs(g, n);
      NoOthers(g, n, bn);
      var i := bn;
      if i < NDIRECT {
        var addr := inodes[n].addrs[i];
        if addr == 0 {
          r := AllocInto(n, i);
          if r.Some? {
            SlotsAreBlocks(g, Img(), n, bn, Direct(n, i));
          }
        } else {
          PtrInRange(Img(), owner, Direct(n, i));
          r := Some(addr);
        }
        return;
      }
      i := i - NDIRECT;
      if i < NINDIRECT {
        r := BmapIndirect(n, i);
        return;
      }
      return None;
    }

    method BmapIndirect(n: nat, j: nat) returns (r: Option<nat>)
      requires Valid() && n < |inodes| && |inodes[n].addrs| == NDIRECT + 1 && j < NINDIRECT
      modifies this
      ensures r.Some? ==>
        && Valid() && SameBytes(old(Img()), Img()) && OnlyAdds(old(Img()), Img(), n) && dinodes == old(dinodes)
        && Shape(Img()) && 0 < r.value < |blocks| && n < |inodes| && Ptr(Img(), Entry(n, j)) == r.value
      ensures Ptr(old(Img()), Entry(n, j)) != 0 ==> r.Some? && Img() == old(Img()) && owner == old(owner)
      ensures r.Some? && old(inodes[n].addrs[NDIRECT]) != 0 ==> inodes == old(inodes)
      ensures Shape(old(Img())) && (r.Some? <==> Cost(old(Img()), n, NDIRECT + j) <= Avail(old(Img()), inOp))
      ensures r.Some? ==> FreeCount(Img()) + Cost(old(Img()), n, NDIRECT + j) == FreeCount(old(Img()))
      ensures r.Some? ==> OtherBlocks(old(Img()), Img(), n, NDIRECT + j)
    {
      hide FsOk, SameBytes, OnlyAdds, Shape, FreeCount, OtherSlots, OtherBlocks;
      ghost var g := Img();
      HasShape(g, owner);
      SameIsSame(g, n);
      NoOthers(g, n, NDIRECT + j);
      var addr := inodes[n].addrs[NDIRECT];
      if addr == 0 {
        var ind := AllocInto(n, NDIRECT);
        if ind.None? {
          return None;
        }
        SlotsAreBlocks(g, Img(), n, NDIRECT + j, Indirect(n));
        NewTableEmpty(g, Img(), n, j);
      } else {
        PtrInRange(g, owner, Indirect(n));
      }
      ghost var m := Img();
      r := TableEntry(n, j);
      if r.Some? {
        HasShape(Img(), owner);
        SameBytesTrans(g, m, Img());
        OnlyAddsTrans(g, m, Img(), n);
        SlotsAreBlocks(m, Img(), n, NDIRECT + j, Entry(n, j));
        OtherBlocksTwice(g, m, Img(), n, NDIRECT + j);
      }
    }

    /** The indirect half of bmap(), once the indirect block is there. */
    method TableEntry(n: nat, j: nat) returns (r: Option<nat>)
      requires Valid() && n < |inodes| && j < NINDIRECT && 0 < inodes[n].addrs[NDIRECT] < |blocks|
      modifies this
      ensures r.Some? ==> Valid() && SameBytes(old(Img()), Img()) && OnlyAdds(old(Img()), Img(), n)
      ensures r.Some? ==>
        && inodes == old(inodes) && dinodes == old(dinodes)
        && 0 < r.value < |blocks| && Ptr(Img(), Entry(n, j)) == r.value
      ensures Ptr(old(Img()), Entry(n, j)) != 0 ==> r.Some? && Img() == old(Img()) && owner == old(owner)
      ensures Shape(old(Img())) && (r.None? <==> Ptr(old(Img()), Entry(n, j)) == 0 && Avail(old(Img()), inOp) == 0)
      ensures r.Some? ==> Shape(Img()) && OtherSlots(old(Img()), Img(), Entry(n, j))
      ensures r.Some? ==> FreeCount(Img()) == FreeCount(old(Img())) - if Ptr(old(Img()), Entry(n, j)) == 0 then 1 else 0
    {
      hide SameBytes, OnlyAdds, FreeCount, OtherSlots;
      SameIsSame(Img(), n);
      NoOtherSlots(Img(), Entry(n, j));
      var a := AsTable(blocks[inodes[n].addrs[NDIRECT]]);
      assert SlotOk(Img(), owner, Entry(n, j));
      if a[j] == 0 {
        r := AllocIntoTable(n, j);
      } else {
        assert OwnedOk(Img(), owner, a[j]);
        r := Some(a[j]);
      }
    }

    /** bfree(); false where it panics because the block is already free. */
    method Bfree(b: nat) returns (ok: bool)
      requires b < 8 * |bitmap|
      modifies `bitmap
      ensures ok == Used(old(bitmap), b)
      ensures bitmap == if ok then SetFree(old(bitmap), b) else old(bitmap)
    {
      hide Mask;
      var m := Mask(b % 8);
      if bitmap[b / 8] & m == 0 {
        return false;
      }
      bitmap := bitmap[b / 8 := bitmap[b / 8] & !m];
      return true;
    }

    /** The first loop of itrunc(). */
    method FreeDirect(n: nat)
      requires Valid() && n < |inodes|
      modifies this
      ensures Valid() && blocks == old(blocks) && dinodes == old(dinodes)
      ensures owner == KeepDirect(old(owner), n, NDIRECT)
      ensures inodes == old(inodes)[n := old(inodes)[n].(addrs := inodes[n].addrs)]
      ensures inodes[n].addrs == seq(NDIRECT, _ => 0) + [old(inodes)[n].addrs[NDIRECT]]
    {
      hide FsOk, KeepDirect;
      HasShape(Img(), owner);
      assert KeepDirect(owner, n, 0) == owner by { KeepAll(owner, n); }
      for i := 0 to NDIRECT
        invariant |inodes| == |old(inodes)| && |inodes[n].addrs| == NDIRECT + 1
        invariant Valid() && blocks == old(blocks) && dinodes == old(dinodes)
        invariant owner == KeepDirect(old(owner), n, i)
        invariant inodes == old(inodes)[n := old(inodes)[n].(addrs := inodes[n].addrs)]
        invariant forall k | 0 <= k < i :: inodes[n].addrs[k] == 0
        invariant forall k | i <= k <= NDIRECT :: inodes[n].addrs[k] == old(inodes)[n].addrs[k]
      {
        FreeOneDirect(n, i);
        KeepOneMore(old(owner), n, i);
      }
    }

    method FreeOneDirect(n: nat, i: nat)
      requires Valid() && n < |inodes| && i < NDIRECT && |inodes[n].addrs| == NDIRECT + 1
      modifies this
      ensures Valid() && blocks == old(blocks) && dinodes == old(dinodes) && |inodes| == |old(inodes)|
      ensures inodes == old(inodes)[n := old(inodes)[n].(addrs := old(inodes)[n].addrs[i := 0])]
      ensures owner == map p | p in old(owner) && old(owner)[p] != Direct(n, i) :: old(owner)[p]
    {
      hide FsOk, SetFree;
      ghost var g := Img();
      HasShape(g, owner);
      DropOwner(g, owner, n, i);
      if inodes[n].addrs[i] != 0 {
        var b := inodes[n].addrs[i];
        DropDirect(g, owner, n, i);
        var ok := Bfree(b);
        inodes := inodes[n := inodes[n].(addrs := inodes[n].addrs[i := 0])];
        owner := owner - {b};
        assert Img() == SetAddr(Released(g, b), n, i, 0);
      } else {
        assert inodes[n].addrs[i := 0] == inodes[n].addrs;
      }
    }

    /** The second part of itrunc(): the entries of the indirect block, then the block itself. */
    method FreeTable(n: nat)
      requires Valid() && n < |inodes| && |inodes[n].addrs| == NDIRECT + 1
      requires forall p | p in owner :: !(owner[p].Direct? && owner[p].inum == n)
      modifies this
      ensures Valid() && blocks == old(blocks) && dinodes == old(dinodes)
      ensures owner == KeepOthers(old(owner), n)
      ensures inodes == old(inodes)[n := old(inodes)[n].(addrs := old(inodes)[n].addrs[NDIRECT := 0])]
    {
      hide FsOk, EntriesFreed, SetFree, KeepOthers;
      ghost var g := Img();
      HasShape(g, owner);
      var t := inodes[n].addrs[NDIRECT];
      if t != 0 {
        TableStart(g, owner, n);
        var a := AsTable(blocks[t]);
        for j := 0 to NINDIRECT
          invariant Img() == g.(bitmap := bitmap) && owner == old(owner) && dinodes == old(dinodes)
          invariant EntriesFreed(g, owner, bitmap, n, j) && |bitmap| == |g.bitmap|
        {
          FreeEntry(g, owner, bitmap, n, j);
          if a[j] != 0 {
            var ok := Bfree(a[j]);
          }
        }
        DropTable(g, owner, bitmap, n);
        var ok := Bfree(t);
        inodes := inodes[n := inodes[n].(addrs := inodes[n].addrs[NDIRECT := 0])];
        owner := KeepOthers(owner, n);
      } else {
        NoTable(g, owner, n);
        assert inodes[n].addrs[NDIRECT := 0] == inodes[n].addrs;
      }
    }

    /** iupdate(): copy the inode to disk. */
    method Iupdate(n: nat)
      requires n < |inodes| && n < |dinodes|
      modifies `dinodes
      ensures dinodes == old(dinodes)[n := inodes[n]]
    {
      dinodes := dinodes[n := inodes[n]];
    }

    /** itrunc(), called inside an operation: exactly the blocks of file `n` become free, none
        of them twice, and the empty inode is on disk. */
    method Itrunc(n: nat)
      requires inOp && Valid() && n < |inodes|
      modifies this
      ensures Valid() && blocks == old(blocks)
      ensures owner == KeepOthers(old(owner), n)
      ensures inodes == old(inodes)[n := old(inodes)[n].(size := 0, addrs := seq(NDIRECT + 1, _ => 0))]
      ensures dinodes == old(dinodes)[n := inodes[n]]
    {
      hide FsOk, KeepDirect, KeepOthers;
      HasShape(Img(), owner);
      NoDirectLeft(Img(), owner, n);
      KeepTwice(owner, n, NDIRECT);
      FreeDirect(n);
      FreeTable(n);
      assert inodes[n].addrs == seq(NDIRECT + 1, _ => 0);
      ghost var g := Img();
      inodes := inodes[n := inodes[n].(size := 0)];
      SizeKeeps(g, owner, n, 0);
      Iupdate(n);
    }

    /** readi() of a file: exactly the bytes asked for that lie below its size.  A hole reads as
        zeroes; reading it gives it a block, and only then does anything change.  It panics
        exactly if blocks are missing and there are not enough free ones, or if blocks are
        missing and no operation is in progress. */
    method Readi(n: nat, off: nat, count: nat) returns (r: ReadResult)
      requires Valid() && n < |inodes| && inodes[n].size <= MAXBYTES && off < WORD && count < WORD
      modifies this
      ensures r == Refused <==> off > old(inodes[n].size) || off + count >= 0x1_0000_0000
      ensures r == Refused ==> Img() == old(Img()) && owner == old(owner)
      ensures r != ReadPanic ==> dinodes == old(dinodes)
      ensures r.Got? ==> Valid() && SameBytes(old(Img()), Img()) && OnlyAdds(old(Img()), Img(), n)
      ensures r.Got? ==>
        |r.bytes| == if off + count <= old(inodes[n].size) then count else old(inodes[n].size) - off
      ensures var end := EndOf(old(inodes[n].size), off, count);
        && (r.Got? ==> off <= end <= old(inodes[n].size) && r.bytes == Content(old(Img()), n)[off..end])
        && (r.Got? ==> (Img() == old(Img()) <==> RangeBacked(old(Img()), n, off, end)))
        && (r.Got? ==>
          |inodes| == |old(inodes)| && (inodes[n] == old(inodes[n]) <==> !Missing(old(inodes[n]), off, end)))
        && (r == ReadPanic ==> !RangeBacked(old(Img()), n, off, end))
      ensures r != Refused ==>
        var need := Need(old(Img()), n, Bn(off), After(off, EndOf(old(inodes[n].size), off, count) - off));
        && (r == ReadPanic <==> Avail(old(Img()), inOp) < need)
        && (r.Got? ==> Shape(Img()) && FreeCount(Img()) + need == FreeCount(old(Img())))
    {
      hide FsOk, Content, Shape, SameBytes, OnlyAdds, Reading, RangeBacked, Missing, FreeCount, Need, After;
      ghost var g := Img();
      HasShape(g, owner);
      if off > inodes[n].size || (off + count) % 0x1_0000_0000 < off {
        return Refused;
      }
      var end := if off + count > inodes[n].size then inodes[n].size else off + count;
      var ok, dst := ReadAll(n, off, end);
      if !ok {
        return ReadPanic;
      }
      ReadingDone(g, Img(), n, off, end);
      return Got(dst);
    }

    /** The loop of readi(). */
    method ReadAll(n: nat, off: nat, end: nat) returns (ok: bool, dst: seq<Byte>)
      requires Valid() && n < |inodes| && off <= end <= inodes[n].size <= MAXBYTES
      modifies this
      ensures ok ==> Valid() && dinodes == old(dinodes) && Reading(old(Img()), Img(), n, off, end)
      ensures ok ==> dst == Content(old(Img()), n)[off..end]
      ensures !ok ==> !RangeBacked(old(Img()), n, off, end)
      ensures Shape(old(Img()))
        && (ok <==> Need(old(Img()), n, Bn(off), After(off, end - off)) <= Avail(old(Img()), inOp))
      ensures ok ==>
        Shape(Img()) && FreeCount(Img()) + Need(old(Img()), n, Bn(off), After(off, end - off))
          == FreeCount(old(Img()))
    {
      hide FsOk, Content, Shape, Reading, RangeBacked, Between, FreeCount, Need, After;
      ghost var g := Img();
      HasShape(g, owner);
      dst := [];
      var tot := 0;
      ReadingStart(g, n, off);
      BetweenStart(g, inOp, n, off, end - off);
      while off + tot < end
        invariant Valid() && dinodes == old(dinodes) && 0 <= tot && off + tot <= end
        invariant Reading(g, Img(), n, off, off + tot) && dst == Content(g, n)[off..off + tot]
        invariant Between(g, Img(), inOp, n, off, tot, end - off)
      {
        var part, m;
        ok, part, m := ReadNext(n, off, off + tot, end, g);
        if !ok {
          return;
        }
        JoinSlices(Content(g, n), off, off + tot, off + tot + m);
        dst := dst + part;
        tot := tot + m;
      }
      BetweenEnds(g, Img(), inOp, n, off, end - off);
      ok := true;
    }

    /** One turn of readi()'s loop, in terms of the whole read. */
    method ReadNext(n: nat, off: nat, pos: nat, end: nat, ghost g: Image) returns (ok: bool, part: seq<Byte>, m: nat)
      requires Valid() && off <= pos < end && Shape(g) && n < |g.inodes| && end <= g.inodes[n].size <= MAXBYTES
        && Reading(g, Img(), n, off, pos)
      requires Between(g, Img(), inOp, n, off, pos - off, end - off)
      modifies this
      ensures 0 < m && pos + m <= end
      ensures ok ==>
        Valid() && dinodes == old(dinodes) && Reading(g, Img(), n, off, pos + m)
          && part == Content(g, n)[pos..pos + m]
      ensures !ok ==> !RangeBacked(g, n, off, end)
      ensures ok ==> Between(g, Img(), inOp, n, off, pos + m - off, end - off)
      ensures !ok ==> Avail(g, inOp) < Need(g, n, Bn(off), After(off, end - off))
    {
      hide FsOk, Content, Shape, SameBytes, OnlyAdds, Reading, RangeBacked, BlockOf, AddrMissing, Between, Cost,
        Need, After,
        FreeCount, OtherBlocks;
      ghost var r := Img();
      ReadingBounds(g, r, n, off, pos);
      HasAddrs(r, n);
      if RangeBacked(g, n, off, end) {
        ReadingBacked(g, r, n, off, pos, end);
      }
      ok, part, m := ReadChunk(n, pos, end - pos);
      if ok {
        HasShape(Img(), owner);
        ReadingStep(g, r, Img(), n, off, pos, m);
        BetweenNext(g, r, Img(), inOp, n, off, pos - off, end - off, m);
      } else {
        BetweenFails(g, r, inOp, n, off, pos - off, end - off);
      }
    }

    /** One turn of readi()'s loop. */
    method ReadChunk(n: nat, pos: nat, left: nat) returns (ok: bool, part: seq<Byte>, m: nat)
      requires Valid() && n < |inodes| && inodes[n].size <= MAXBYTES && 0 < left && pos + left <= inodes[n].size
      modifies this
      ensures 0 < m <= left && Off(pos) + m <= BSIZE && (m == left || Off(pos) + m == BSIZE)
        && (ok ==> dinodes == old(dinodes))
      ensures Shape(old(Img())) && (ok <==> Cost(old(Img()), n, Bn(pos)) <= Avail(old(Img()), inOp))
      ensures ok ==> Shape(Img()) && FreeCount(Img()) + Cost(old(Img()), n, Bn(pos)) == FreeCount(old(Img()))
      ensures ok ==> OtherBlocks(old(Img()), Img(), n, Bn(pos))
      ensures !ok ==> BlockOf(old(Img()), n, Bn(pos)) == 0
      ensures ok ==> Valid() && SameBytes(old(Img()), Img()) && OnlyAdds(old(Img()), Img(), n)
      ensures ok ==> n < |inodes| && BlockOf(Img(), n, Bn(pos)) != 0 && part == Content(old(Img()), n)[pos..pos + m]
      ensures BlockOf(old(Img()), n, Bn(pos)) != 0 ==> Img() == old(Img())
      ensures ok && !AddrMissing(old(inodes[n]), Bn(pos)) ==> inodes == old(inodes)
    {
      hide FsOk, SameBytes, OnlyAdds, Content, FreeCount, OtherBlocks;
      ghost var g := Img();
      HasShape(g, owner);
      part := [];
      m := ChunkLen(pos, left);
      var b := Bmap(n, Bn(pos));
      if b.None? {
        return false, part, m;
      }
      part := AsBytes(blocks[b.value])[Off(pos)..Off(pos) + m];
      OnlyAddsKeepsSize(g, Img(), n);
      ChunkOfContent(Img(), n, pos, m);
      SameContent(g, Img(), n);
      ok := true;
    }

    /** One turn of writei()'s loop. */
    method WriteChunk(n: nat, pos: nat, piece: seq<Byte>) returns (ok: bool)
      requires Valid() && n < |inodes| && pos < MAXBYTES && Off(pos) + |piece| <= BSIZE
      modifies this
      ensures ok ==> Valid() && Patched(old(Img()), Img(), n, pos, piece) && OnlyAdds(old(Img()), Img(), n)
      ensures ok ==> BlockOf(Img(), n, Bn(pos)) != 0 && dinodes == old(dinodes)
      ensures ok && !AddrMissing(old(inodes[n]), Bn(pos)) ==> inodes == old(inodes)
      ensures Shape(old(Img())) && (ok <==> inOp && Cost(old(Img()), n, Bn(pos)) <= FreeCount(old(Img())))
      ensures ok ==> Shape(Img()) && FreeCount(Img()) + Cost(old(Img()), n, Bn(pos)) == FreeCount(old(Img()))
      ensures ok ==> OtherBlocks(old(Img()), Img(), n, Bn(pos))
    {
      hide FsOk, Patched, SameBytes, OnlyAdds, OtherBlocks;
      var b := Bmap(n, Bn(pos));
      if b.None? {
        return false;
      }
      ghost var g := Img();
      var o := Off(pos);
      var bytes := Overlaid(AsBytes(blocks[b.value]), o, piece);
      PieceWritten(g, owner, n, pos, piece);
      if !inOp {
        return false;
      }
      blocks := blocks[b.value := Data(bytes)];
      SameBytesThenPatched(old(Img()), g, Img(), n, pos, piece);
      OnlyAddsTrans(old(Img()), g, Img(), n);
      OtherBlocksTwice(old(Img()), g, Img(), n, Bn(pos));
      return true;
    }

    /** One turn of writei()'s loop, in terms of the whole write. */
    method WriteNext(n: nat, off: nat, src: seq<Byte>, tot: nat, ghost g: Image) returns (ok: bool, m: nat)
      requires Shape(g) && n < |g.inodes| && Valid() && Progress(g, Img(), n, off, src, tot)
      requires tot < |src| && off + |src| <= MAXBYTES && Between(g, Img(), inOp, n, off, tot, |src|)
      modifies this
      ensures ok ==> inOp && Valid() && dinodes == old(dinodes)
      ensures 0 < m && tot + m <= |src| && (ok ==> Progress(g, Img(), n, off, src, tot + m))
      ensures ok ==> Between(g, Img(), inOp, n, off, tot + m, |src|)
      ensures !ok && inOp ==> FreeCount(g) < Need(g, n, Bn(off), After(off, |src|))
    {
      hide FsOk, Patched, OnlyAdds, BlockOf, Progress, Shape, AddrMissing, Between, Cost, Need, After, FreeCount,
        OtherBlocks;
      ghost var r := Img();
      ProgressBounds(g, r, n, off, src, tot);
      var pos := off + tot;
      m := ChunkLen(pos, |src| - tot);
      HasAddrs(r, n);
      ok := WriteChunk(n, pos, src[tot..tot + m]);
      if ok {
        ProgressStep(g, r, Img(), n, off, src, tot, m);
        BetweenNext(g, r, Img(), inOp, n, off, tot, |src|, m);
      } else if inOp {
        BetweenFails(g, r, inOp, n, off, tot, |src|);
      }
    }

    /** The loop of writei(). */
    method WriteAll(n: nat, off: nat, src: seq<Byte>) returns (ok: bool)
      requires Valid() && n < |inodes| && off <= inodes[n].size && off + |src| <= MAXBYTES
      modifies this
      ensures ok ==> Valid() && Progress(old(Img()), Img(), n, off, src, |src|) && dinodes == old(dinodes)
      ensures Shape(old(Img()))
      ensures ok <==> |src| == 0 || (inOp && Need(old(Img()), n, Bn(off), After(off, |src|)) <= FreeCount(old(Img())))
      ensures ok ==>
        Shape(Img()) && FreeCount(Img()) + Need(old(Img()), n, Bn(off), After(off, |src|)) == FreeCount(old(Img()))
    {
      hide FsOk, Progress, Shape, Between, FreeCount, Need, After;
      ghost var g := Img();
      HasShape(g, owner);
      ProgressStart(g, n, off, src);
      BetweenStart(g, inOp, n, off, |src|);
      var tot := 0;
      while tot < |src|
        invariant 0 <= tot <= |src| && Valid() && dinodes == old(dinodes) && (0 < tot ==> inOp)
        invariant Progress(g, Img(), n, off, src, tot) && Between(g, Img(), inOp, n, off, tot, |src|)
      {
        var m;
        ok, m := WriteNext(n, off, src, tot, g);
        if !ok {
          return;
        }
        tot := tot + m;
      }
      BetweenEnds(g, Img(), inOp, n, off, |src|);
      ok := true;
    }

    /** writei() to a file.  It panics exactly if the blocks missing are not to be had, or if it
        has something to write and no operation is in progress.  The inode reaches the disk
        exactly if the file grows, so what is lost is a pointer that filled a hole inside the
        file. */
    method Writei(n: nat, off: nat, src: seq<Byte>) returns (r: WriteResult)
      requires Valid() && n < |inodes| && inodes[n].size <= MAXBYTES && off < WORD && |src| < WORD
      modifies this
      ensures r == Rejected <==>
        old(inodes[n].size) < off || 0x1_0000_0000 <= off + |src| || 140 * 512 < off + |src|
      ensures r == Rejected ==> Img() == old(Img()) && owner == old(owner) && dinodes == old(dinodes)
      ensures r != Rejected ==>
        var need := Need(old(Img()), n, Bn(off), After(off, |src|));
        && (r == WritePanic <==> 0 < |src| && (!inOp || FreeCount(old(Img())) < need))
        && (r == Wrote ==> Valid() && Shape(Img()) && FreeCount(Img()) + need == FreeCount(old(Img())))
        && (r == WritePanic && inOp ==> !RangeBacked(old(Img()), n, off, off + |src|))
      ensures r == Wrote ==> Valid() && WriteDone(old(Img()), Img(), n, off, src)
      ensures r == Wrote ==> KeepsNode(old(Img()), Img(), n)
      ensures r == Wrote ==>
        inodes[n] == old(inodes[n]).(addrs := inodes[n].addrs, size :=
          if old(inodes[n].size) < off + |src| then off + |src| else old(inodes[n].size))
      ensures r == Wrote ==> |dinodes| == |old(dinodes)|
      ensures r == Wrote && old(dinodes[n] == inodes[n]) ==>
        (dinodes[n] == inodes[n] <==> old(inodes[n].size) < off + |src| || !Missing(old(inodes[n]), off, off + |src|))
      ensures r == Wrote && old(dinodes[n] == inodes[n]) && HoleFree(old(Img()), n) ==> dinodes[n] == inodes[n]
      ensures r == Wrote ==> forall m | 0 <= m < |dinodes| && m != n :: dinodes[m] == old(dinodes)[m]
    {
      hide FsOk, WriteDone, Patched, OnlyAdds, RangeBacked, Missing, HoleFree, Shape, Progress, FreeCount, Need, After,
        KeepsNode;
      ghost var g := Img();
      HasShape(g, owner);
      if off > inodes[n].size || (off + |src|) % 0x1_0000_0000 < off {
        return Rejected;
      }
      if off + |src| > MAXBYTES {
        return Rejected;
      }
      if RangeBacked(g, n, off, off + |src|) {
        RangeIsFree(g, n, off, |src|);
      }
      var ok := WriteAll(n, off, src);
      if !ok {
        return WritePanic;
      }
      ProgressDone(g, Img(), n, off, src);
      WriteIsDone(g, Img(), n, off, src);
      OnlyAddsKeepsNode(g, Img(), n, if inodes[n].size < off + |src| then off + |src| else inodes[n].size);
      SameRest(g, Img(), n);
      if HoleFree(g, n) && off + |src| <= g.inodes[n].size {
        HoleFreeHasAll(g, n, off, off + |src|);
      }
      if |src| > 0 && off + |src| > inodes[n].size {
        SizeKeeps(Img(), owner, n, off + |src|);
        SizeSameFree(Img(), n, off + |src|);
        inodes := inodes[n := inodes[n].(size := off + |src|)];
        Iupdate(n);
      } else {
        assert inodes[n].(size := inodes[n].size) == inodes[n];
        assert inodes[n := inodes[n]] == inodes;
        assert SetSize(Img(), n, inodes[n].size) == Img();
      }
      return Wrote;
    }
  }

  // ----- Blocks taken by the loops

  ghost predicate Between(g: Image, r: Image, inOp: bool, n: nat, off: nat, tot: nat, len: nat) {
    && Shape(g) && Shape(r) && Midway(g, r, n, off, tot, len, FreeCount(g) - FreeCount(r))
    && (inOp || FreeCount(r) == FreeCount(g))
  }

  lemma BetweenStart(g: Image, inOp: bool, n: nat, off: nat, len: nat)
    requires Shape(g) && n < |g.inodes| && off + len <= MAXBYTES
    ensures Between(g, g, inOp, n, off, 0, len)
  {
    MidwayStart(g, n, off, len);
  }

  lemma BetweenNext(g: Image, r: Image, q: Image, inOp: bool, n: nat, off: nat, tot: nat, len: nat, m: nat)
    requires Between(g, r, inOp, n, off, tot, len) && tot < len && off + len <= MAXBYTES && 0 < m <= len - tot
    requires Off(off + tot) + m <= BSIZE && (m == len - tot || Off(off + tot) + m == BSIZE)
    requires OtherBlocks(r, q, n, Bn(off + tot)) && BlockOf(q, n, Bn(off + tot)) != 0
    requires FreeCount(q) + Cost(r, n, Bn(off + tot)) == FreeCount(r) && Cost(r, n, Bn(off + tot)) <= Avail(r, inOp)
    ensures Between(g, q, inOp, n, off, tot + m, len)
  {
    hide FreeCount, BlockOf, Midway, Cost;
    MidwayNext(g, r, q, n, off, tot, len, m, FreeCount(g) - FreeCount(r));
  }

  lemma BetweenFails(g: Image, r: Image, inOp: bool, n: nat, off: nat, tot: nat, len: nat)
    requires Between(g, r, inOp, n, off, tot, len) && tot < len && off + len <= MAXBYTES
    requires n < |r.inodes| && Avail(r, inOp) < Cost(r, n, Bn(off + tot))
    ensures n < |g.inodes| && Avail(g, inOp) < Need(g, n, Bn(off), After(off, len))
  {
    hide FreeCount, BlockOf, Midway, Cost, Need;
    MidwayFails(g, r, n, off, tot, len, FreeCount(g) - FreeCount(r), Avail(r, inOp));
  }

  lemma BetweenEnds(g: Image, r: Image, inOp: bool, n: nat, off: nat, len: nat)
    requires Between(g, r, inOp, n, off, len, len)
    ensures Shape(g) && Shape(r) && n < |g.inodes| && Bn(off) <= After(off, len) <= MAXFILE
    ensures FreeCount(r) + Need(g, n, Bn(off), After(off, len)) == FreeCount(g)
    ensures Need(g, n, Bn(off), After(off, len)) <= Avail(g, inOp)
  {
    hide FreeCount, Midway;
    MidwayEnds(g, r, n, off, len, FreeCount(g) - FreeCount(r));
  }

  lemma SizeSameFree(g: Image, n: nat, size: nat)
    requires Shape(g) && n < |g.inodes|
    ensures Shape(SetSize(g, n, size)) && FreeCount(SetSize(g, n, size)) == FreeCount(g)
  {
  }

  lemma PieceWritten(g: Image, owner: Owner, n: nat, pos: nat, piece: seq<Byte>)
    requires FsOk(g, owner) && n < |g.inodes| && pos < MAXBYTES && Off(pos) + |piece| <= BSIZE
    requires 0 < BlockOf(g, n, Bn(pos)) < |g.blocks|
    ensures var b := BlockOf(g, n, Bn(pos));
      var r := PutData(g, b, Overlaid(AsBytes(g.blocks[b]), Off(pos), piece));
      && FsOk(r, owner) && Patched(g, r, n, pos, piece) && OnlyAdds(g, r, n) && OtherBlocks(g, r, n, Bn(pos))
      && Shape(r) && FreeCount(r) == FreeCount(g) && BlockOf(r, n, Bn(pos)) == b
  {
    hide Patched, OtherBlocks;
    var b := BlockOf(g, n, Bn(pos));
    var bytes := Overlaid(AsBytes(g.blocks[b]), Off(pos), piece);
    PutPieceBytes(g, owner, n, pos, piece);
    PutDataKeeps(g, owner, n, Bn(pos), bytes);
    PutOthers(g, owner, n, Bn(pos), bytes);
  }

  // ----- The loop of readi()

  /** Reading from off up to pos of image g has led to r: no byte of any file is different, and
      nothing at all where no block was missing. */
  ghost predicate Reading(g: Image, r: Image, n: nat, off: nat, pos: nat) {
    && Shape(g) && Shape(r) && n < |g.inodes| == |r.inodes|
    && SameBytes(g, r) && OnlyAdds(g, r, n) && RangeBacked(r, n, off, pos)
    && (RangeBacked(g, n, off, pos) ==> r == g)
    && (!Missing(g.inodes[n], off, pos) ==> r.inodes == g.inodes)
  }

  lemma ReadingBounds(g: Image, r: Image, n: nat, off: nat, pos: nat)
    requires Reading(g, r, n, off, pos)
    ensures Shape(g) && Shape(r) && n < |g.inodes| == |r.inodes| && r.inodes[n].size == g.inodes[n].size
    ensures g.inodes[n].size <= MAXBYTES ==> Content(r, n) == Content(g, n)
  {
    hide SameBytes, RangeBacked, Missing;
    OnlyAddsKeepsSize(g, r, n);
    if g.inodes[n].size <= MAXBYTES {
      SameContent(g, r, n);
    }
  }

  lemma SameContent(g: Image, r: Image, n: nat)
    requires SameBytes(g, r) && n < |g.inodes| && r.inodes[n].size == g.inodes[n].size <= MAXBYTES
    ensures Content(r, n) == Content(g, n)
  {
    hide ByteAt;
  }

  lemma ReadingStart(g: Image, n: nat, off: nat)
    requires Shape(g) && n < |g.inodes|
    ensures Reading(g, g, n, off, off)
  {
    RangeEmpty(g, n, off);
    SameIsSame(g, n);
  }

  lemma ReadingStep(g: Image, r: Image, q: Image, n: nat, off: nat, pos: nat, m: nat)
    requires Reading(g, r, n, off, pos) && Shape(q) && SameBytes(r, q) && OnlyAdds(r, q, n)
    requires off <= pos < MAXBYTES && 0 < m && Off(pos) + m <= BSIZE && n < |q.inodes| && BlockOf(q, n, Bn(pos)) != 0
    requires BlockOf(r, n, Bn(pos)) != 0 ==> q == r
    requires !AddrMissing(r.inodes[n], Bn(pos)) ==> q.inodes == r.inodes
    ensures Reading(g, q, n, off, pos + m)
  {
    hide SameBytes, OnlyAdds, BlockOf, Missing, AddrMissing;
    SameBytesTrans(g, r, q);
    OnlyAddsTrans(g, r, q, n);
    OnlyAddsKeepsSize(r, q, n);
    RangeGrows(r, q, n, off, pos, m);
    MissingGrows(g.inodes[n], off, pos, m);
    if RangeBacked(g, n, off, pos + m) {
      RangeShrinks(g, n, off, pos, m);
    }
  }

  lemma RangeShrinks(g: Image, n: nat, off: nat, pos: nat, m: nat)
    requires Shape(g) && n < |g.inodes| && off <= pos < MAXBYTES && 0 < m && Off(pos) + m <= BSIZE
      && RangeBacked(g, n, off, pos + m)
    ensures RangeBacked(g, n, off, pos) && BlockOf(g, n, Bn(pos)) != 0
  {
    hide BlockOf;
    forall bn: nat | bn < MAXFILE && InRange(bn, off, pos)
      ensures BlockOf(g, n, bn) != 0
    {
      RangeStep(bn, off, pos, m);
    }
    RangeStep(Bn(pos), off, pos, m);
  }

  lemma ReadingBacked(g: Image, r: Image, n: nat, off: nat, pos: nat, end: nat)
    requires Reading(g, r, n, off, pos) && off <= pos < end <= MAXBYTES && RangeBacked(g, n, off, end)
    ensures BlockOf(r, n, Bn(pos)) != 0
  {
    hide SameBytes, OnlyAdds, BlockOf, Missing;
    forall bn: nat | bn < MAXFILE && InRange(bn, off, pos)
      ensures BlockOf(g, n, bn) != 0
    {
      assert InRange(bn, off, end);
    }
    assert InRange(Bn(pos), off, end);
  }

  lemma ReadingDone(g: Image, r: Image, n: nat, off: nat, end: nat)
    requires Reading(g, r, n, off, end)
    ensures Shape(g) && Shape(r) && n < |g.inodes| == |r.inodes| && SameBytes(g, r) && OnlyAdds(g, r, n)
    ensures r == g <==> RangeBacked(g, n, off, end)
    ensures r.inodes[n] == g.inodes[n] <==> !Missing(g.inodes[n], off, end)
  {
    hide SameBytes, OnlyAdds, Missing;
    SameAddrsIff(g, r, n, off, end);
  }
}
