/** The contents of a file, byte by byte, through its block pointers. */
module FsFile {
  import opened FsSpec

  /** The block of a file that byte `pos` is in, and where in it. */
  function Bn(pos: nat): (bn: nat)
    ensures bn * 512 <= pos < bn * 512 + 512
  {
    pos / 512
  }

  function Off(pos: nat): (o: nat)
    ensures o == pos - Bn(pos) * 512
  {
    pos % 512
  }

  /** How much of `left` bytes from `pos` on is in the same block. */
  function ChunkLen(pos: nat, left: nat): (m: nat)
    requires 0 < left
    ensures 0 < m <= left && Off(pos) + m <= 512 && (m == left || Off(pos) + m == 512)
  {
    if left < BSIZE - Off(pos) then left else BSIZE - Off(pos)
  }

  function SlotFor(n: nat, bn: nat): (x: Slot)
    requires bn < MAXFILE
  {
    if bn < NDIRECT then Direct(n, bn) else Entry(n, bn - NDIRECT)
  }

  /** The block that holds block `bn` of file `n`, 0 if there is none. */
  function BlockOf(g: Image, n: nat, bn: nat): (b: nat)
    requires n < |g.inodes| && |g.inodes[n].addrs| == NDIRECT + 1 && bn < MAXFILE
  {
    Ptr(g, SlotFor(n, bn))
  }

  /** Byte `k` of file `n`; a byte without a block reads as 0. */
  function ByteAt(g: Image, n: nat, k: nat): (c: Byte)
    requires n < |g.inodes| && |g.inodes[n].addrs| == NDIRECT + 1 && k < MAXBYTES
  {
    var b := BlockOf(g, n, Bn(k));
    if 0 < b < |g.blocks| then AsBytes(g.blocks[b])[Off(k)] else 0
  }

  ghost predicate SameBytes(g: Image, r: Image) {
    && Shape(g) && Shape(r) && |r.inodes| == |g.inodes|
    && forall n: nat, k: nat | n < |g.inodes| && k < MAXBYTES :: ByteAt(r, n, k) == ByteAt(g, n, k)
  }

  /** Clearing a block that nobody points at changes no file. */
  lemma AllocatedBytes(g: Image, owner: Owner, b: nat)
    requires PointersOk(g, owner) && BitsOk(g, owner) && b < |g.blocks| && !Used(g.bitmap, b)
    ensures SameBytes(g, Allocated(g, b))
  {
    AllocatedOk(g, owner, b);
    var r := Allocated(g, b);
    forall n: nat, k: nat | n < |g.inodes| && k < MAXBYTES
      ensures ByteAt(r, n, k) == ByteAt(g, n, k)
    {
      var x := SlotFor(n, Bn(k));
      assert SlotOk(g, owner, x);
      assert Ptr(r, x) == Ptr(g, x);
    }
  }

  /** Giving a file a cleared block where it had none changes no byte. */
  lemma PointAddrBytes(g: Image, owner: Owner, n: nat, i: nat, b: nat)
    requires PointersOk(g, owner) && n < |g.inodes| && i <= NDIRECT && g.inodes[n].addrs[i] == 0
    requires g.nmeta <= b < |g.blocks| && g.blocks[b].Zeroed?
    ensures SameBytes(g, SetAddr(g, n, i, b))
  {
    var r := SetAddr(g, n, i, b);
    forall m: nat, k: nat | m < |g.inodes| && k < MAXBYTES
      ensures ByteAt(r, m, k) == ByteAt(g, m, k)
    {
      var x := SlotFor(m, Bn(k));
      assert Ptr(r, x) == Ptr(g, x) || (Ptr(g, x) == 0 && Ptr(r, x) == b);
    }
  }

  lemma PointEntryBytes(g: Image, owner: Owner, n: nat, j: nat, b: nat)
    requires PointersOk(g, owner) && n < |g.inodes| && j < NINDIRECT
    requires 0 < g.inodes[n].addrs[NDIRECT] < |g.blocks| && Ptr(g, Entry(n, j)) == 0
    requires g.nmeta <= b < |g.blocks| && g.blocks[b].Zeroed? && b != g.inodes[n].addrs[NDIRECT]
    ensures SameBytes(g, SetEntry(g, g.inodes[n].addrs[NDIRECT], j, b))
  {
    var t := g.inodes[n].addrs[NDIRECT];
    var r := SetEntry(g, t, j, b);
    assert SlotOk(g, owner, Indirect(n));
    forall m: nat, k: nat | m < |g.inodes| && k < MAXBYTES
      ensures ByteAt(r, m, k) == ByteAt(g, m, k)
    {
      var x := SlotFor(m, Bn(k));
      assert SlotOk(g, owner, x);
      assert SlotOk(g, owner, Indirect(m));
      assert Ptr(r, x) == Ptr(g, x) || (Ptr(g, x) == 0 && Ptr(r, x) == b);
    }
  }

  function PutData(g: Image, b: nat, bytes: seq<Byte>): (r: Image)
    requires b < |g.blocks|
  {
    g.(blocks := g.blocks[b := Data(bytes)])
  }

  /** Writing a data block changes that block of that file and nothing else. */
  lemma PutDataOk(g: Image, owner: Owner, n: nat, bn: nat, bytes: seq<Byte>)
    requires PointersOk(g, owner) && n < |g.inodes| && bn < MAXFILE && |bytes| == BSIZE
    requires BlockOf(g, n, bn) != 0
    ensures BlockOf(g, n, bn) < |g.blocks|
    ensures PointersOk(PutData(g, BlockOf(g, n, bn), bytes), owner)
    ensures forall x | IsSlot(|g.inodes|, x) :: Ptr(PutData(g, BlockOf(g, n, bn), bytes), x) == Ptr(g, x)
  {
    var s := SlotFor(n, bn);
    assert SlotOk(g, owner, s);
    var b := BlockOf(g, n, bn);
    assert OwnedOk(g, owner, b);
    var r := PutData(g, b, bytes);
    forall x | IsSlot(|g.inodes|, x)
      ensures Ptr(r, x) == Ptr(g, x) && SlotOk(r, owner, x)
    {
      assert SlotOk(g, owner, x);
      assert SlotOk(g, owner, Indirect(x.inum));
    }
    forall p | p in owner
      ensures OwnedOk(r, owner, p)
    {
      assert OwnedOk(g, owner, p);
    }
  }

  lemma PutDataBytes(g: Image, owner: Owner, n: nat, bn: nat, bytes: seq<Byte>, m: nat, k: nat)
    requires PointersOk(g, owner) && n < |g.inodes| && bn < MAXFILE && |bytes| == BSIZE
    requires BlockOf(g, n, bn) != 0 && BlockOf(g, n, bn) < |g.blocks|
    requires m < |g.inodes| && k < MAXBYTES
    ensures ByteAt(PutData(g, BlockOf(g, n, bn), bytes), m, k)
      == if m == n && Bn(k) == bn then bytes[Off(k)] else ByteAt(g, m, k)
  {
    PutDataOk(g, owner, n, bn, bytes);
    var x, s := SlotFor(m, Bn(k)), SlotFor(n, bn);
    assert SlotOk(g, owner, x) && SlotOk(g, owner, s);
    var r := PutData(g, BlockOf(g, n, bn), bytes);
    assert Ptr(r, x) == Ptr(g, x);
  }

  // ----- Files as byte arrays

  /** Every block below the file's size is there, and the size is within bounds. */
  ghost predicate HoleFree(g: Image, n: nat)
    requires Shape(g) && n < |g.inodes|
  {
    && g.inodes[n].size <= MAXBYTES
    && forall bn: nat | bn < MAXFILE && bn * 512 < g.inodes[n].size :: BlockOf(g, n, bn) != 0
  }

  ghost function Content(g: Image, n: nat): (s: seq<Byte>)
    requires Shape(g) && n < |g.inodes| && g.inodes[n].size <= MAXBYTES
    ensures |s| == g.inodes[n].size
  {
    seq(g.inodes[n].size, k requires 0 <= k < g.inodes[n].size => ByteAt(g, n, k))
  }

  /** Image `r` differs from `g` in the bytes of file `n` from `pos` on that `piece` covers,
      and in no other byte of any file. */
  ghost predicate Patched(g: Image, r: Image, n: nat, pos: nat, piece: seq<Byte>) {
    && Shape(g) && Shape(r) && |r.inodes| == |g.inodes|
    && forall m: nat, k: nat | m < |g.inodes| && k < MAXBYTES ::
         ByteAt(r, m, k) == if m == n && pos <= k < pos + |piece| then piece[k - pos] else ByteAt(g, m, k)
  }

  lemma PatchedTwice(g: Image, r: Image, q: Image, n: nat, pos: nat, a: seq<Byte>, b: seq<Byte>)
    requires Patched(g, r, n, pos, a) && Patched(r, q, n, pos + |a|, b)
    ensures Patched(g, q, n, pos, a + b)
  {
    hide ByteAt;
    forall m: nat, k: nat | m < |g.inodes| && k < MAXBYTES
      ensures ByteAt(q, m, k) == if m == n && pos <= k < pos + |a + b| then (a + b)[k - pos] else ByteAt(g, m, k)
    {
    }
  }

  /** The bytes of a block with `piece` laid over it from offset `o` on. */
  function Overlaid(bytes: seq<Byte>, o: nat, piece: seq<Byte>): (r: seq<Byte>)
    requires |bytes| == BSIZE && o + |piece| <= BSIZE
    ensures |r| == BSIZE
    ensures forall i | 0 <= i < BSIZE :: r[i] == if o <= i < o + |piece| then piece[i - o] else bytes[i]
  {
    bytes[..o] + piece + bytes[o + |piece|..]
  }

  lemma PutPieceBytes(g: Image, owner: Owner, n: nat, pos: nat, piece: seq<Byte>)
    requires PointersOk(g, owner) && n < |g.inodes| && pos < MAXBYTES
    requires Off(pos) + |piece| <= BSIZE
    requires 0 < BlockOf(g, n, Bn(pos)) < |g.blocks|
    ensures var b := BlockOf(g, n, Bn(pos));
      Patched(g, PutData(g, b, Overlaid(AsBytes(g.blocks[b]), Off(pos), piece)), n, pos, piece)
  {
    var bn := Bn(pos);
    var b := BlockOf(g, n, bn);
    var bytes := Overlaid(AsBytes(g.blocks[b]), Off(pos), piece);
    var r := PutData(g, b, bytes);
    PutDataOk(g, owner, n, bn, bytes);
    hide PointersOk, Ptr;
    forall m: nat, k: nat | m < |g.inodes| && k < MAXBYTES
      ensures ByteAt(r, m, k) == if m == n && pos <= k < pos + |piece| then piece[k - pos] else ByteAt(g, m, k)
    {
      PutDataBytes(g, owner, n, bn, bytes, m, k);
      SameBlockOffsets(pos, k, |piece|);
    }
  }

  lemma SameBlockOffsets(pos: nat, k: nat, len: nat)
    requires Off(pos) + len <= BSIZE
    ensures pos <= k < pos + len ==> Bn(k) == Bn(pos) && Off(k) - Off(pos) == k - pos
    ensures Bn(k) == Bn(pos) && Off(pos) <= Off(k) < Off(pos) + len ==>
      pos <= k < pos + len && Off(k) - Off(pos) == k - pos
  {
  }

  /** A run of bytes within one block is that run of the file. */
  lemma ChunkOfContent(g: Image, n: nat, pos: nat, m: nat)
    requires Shape(g) && n < |g.inodes| && g.inodes[n].size <= MAXBYTES && pos + m <= g.inodes[n].size
    requires 0 < m && Off(pos) + m <= BSIZE && 0 < BlockOf(g, n, Bn(pos)) < |g.blocks|
    ensures AsBytes(g.blocks[BlockOf(g, n, Bn(pos))])[Off(pos)..Off(pos) + m] == Content(g, n)[pos..pos + m]
  {
    hide Ptr;
    var p := AsBytes(g.blocks[BlockOf(g, n, Bn(pos))])[Off(pos)..Off(pos) + m];
    var q := Content(g, n)[pos..pos + m];
    forall i | 0 <= i < m
      ensures p[i] == q[i]
    {
      SameBlockOffsets(pos, pos + i, m);
    }
  }

  /** The blocks of file `n` below offset `end` are all there. */
  ghost predicate Backed(g: Image, n: nat, end: nat)
    requires Shape(g) && n < |g.inodes|
  {
    forall bn: nat | bn < MAXFILE && bn * 512 < end :: BlockOf(g, n, bn) != 0
  }

  /** A byte array with `src` written at `off`, longer if need be. */
  function Written(was: seq<Byte>, off: nat, src: seq<Byte>): (r: seq<Byte>)
    requires off <= |was|
  {
    was[..off] + src + if off + |src| < |was| then was[off + |src|..] else []
  }

  function SetSize(g: Image, n: nat, size: nat): (r: Image)
    requires n < |g.inodes|
  {
    g.(inodes := g.inodes[n := g.inodes[n].(size := size)])
  }

  lemma PatchedIsWritten(g: Image, r: Image, n: nat, off: nat, src: seq<Byte>)
    requires Patched(g, r, n, off, src) && n < |g.inodes|
    requires off <= g.inodes[n].size <= MAXBYTES && off + |src| <= MAXBYTES
    requires r.inodes[n].size == if g.inodes[n].size < off + |src| then off + |src| else g.inodes[n].size
    ensures Content(r, n) == Written(Content(g, n), off, src)
  {
    hide ByteAt;
  }

  lemma PatchedOthers(g: Image, r: Image, n: nat, off: nat, src: seq<Byte>, m: nat)
    requires Patched(g, r, n, off, src) && m < |g.inodes| && m != n
    requires r.inodes[m] == g.inodes[m] && g.inodes[m].size <= MAXBYTES
    ensures Content(r, m) == Content(g, m)
  {
    hide ByteAt;
  }

  /** The size field plays no part in where bytes are. */
  lemma SizeKeepsBytes(g: Image, r: Image, n: nat, off: nat, src: seq<Byte>, size: nat)
    requires Patched(g, r, n, off, src) && n < |g.inodes|
    ensures Patched(g, SetSize(r, n, size), n, off, src)
  {
    var q := SetSize(r, n, size);
    forall m: nat, k: nat | m < |g.inodes| && k < MAXBYTES
      ensures ByteAt(q, m, k) == ByteAt(r, m, k)
    {
    }
  }

  lemma SizeKeepsBacked(g: Image, n: nat, end: nat, size: nat)
    requires Shape(g) && n < |g.inodes| && Backed(g, n, end)
    ensures Backed(SetSize(g, n, size), n, end)
  {
    var q := SetSize(g, n, size);
    forall bn: nat | bn < MAXFILE && bn * 512 < end
      ensures BlockOf(q, n, bn) != 0
    {
      assert BlockOf(g, n, bn) != 0;
    }
  }
}
