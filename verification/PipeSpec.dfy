/** The 512-byte ring of pipe.c with its wrapping 32-bit counters. */
module PipeSpec {

  const PIPESIZE := 512
  const WORD := 0x1_0000_0000

  type Byte = x: int | 0 <= x < 256

  /** `nread` and `nwrite` are the counters as stored, modulo 2^32. */
  datatype Ring = Ring(data: seq<Byte>, nread: nat, nwrite: nat)

  /** nwrite - nread in 32-bit arithmetic. */
  function Count(r: Ring): (n: nat)
    requires r.nread < WORD && r.nwrite < WORD
  {
    if r.nread <= r.nwrite then r.nwrite - r.nread else r.nwrite + WORD - r.nread
  }

  ghost predicate RingOk(r: Ring) {
    && |r.data| == PIPESIZE && r.nread < WORD && r.nwrite < WORD
    && Count(r) <= PIPESIZE
  }

  predicate Full(r: Ring) {
    r.nwrite == (r.nread + PIPESIZE) % WORD
  }

  predicate Empty(r: Ring) {
    r.nread == r.nwrite
  }

  function Slot(x: nat): (i: nat)
    ensures i < PIPESIZE
  {
    x % PIPESIZE
  }

  /** The bytes in the ring, oldest first. */
  ghost function Contents(r: Ring): (s: seq<Byte>)
    requires RingOk(r)
    ensures |s| == Count(r)
  {
    seq(Count(r), k requires 0 <= k < Count(r) => r.data[Slot(r.nread + k)])
  }

  function PutByte(r: Ring, b: Byte): (q: Ring)
    requires |r.data| == PIPESIZE
  {
    Ring(r.data[Slot(r.nwrite) := b], r.nread, (r.nwrite + 1) % WORD)
  }

  function GetByte(r: Ring): (q: Ring)
    requires |r.data| == PIPESIZE
  {
    Ring(r.data, (r.nread + 1) % WORD, r.nwrite)
  }

  lemma FullMeans(r: Ring)
    requires RingOk(r)
    ensures Full(r) <==> Count(r) == PIPESIZE
    ensures Empty(r) <==> Count(r) == 0
  {
  }

  /** Positions that differ by less than the ring's size are different slots. */
  lemma DifferentSlots(x: nat, y: nat)
    requires x < y < x + PIPESIZE
    ensures Slot(x) != Slot(y)
  {
  }

  /** 2^32 is a multiple of the ring's size, so wrapping a counter keeps its slot. */
  lemma WrapKeepsSlot(x: nat)
    requires WORD <= x
    ensures Slot(x - WORD) == Slot(x)
  {
  }

  /** The slot written next is the one after the contents, wrapped or not. */
  lemma WriteSlot(r: Ring)
    requires RingOk(r)
    ensures Slot(r.nwrite) == Slot(r.nread + Count(r))
  {
    if r.nwrite < r.nread {
      WrapKeepsSlot(r.nread + Count(r));
    }
  }

  lemma PutAppends(r: Ring, b: Byte)
    requires RingOk(r) && !Full(r)
    ensures RingOk(PutByte(r, b)) && Contents(PutByte(r, b)) == Contents(r) + [b]
  {
    FullMeans(r);
    WriteSlot(r);
    hide Slot;
    var q := PutByte(r, b);
    assert Count(q) == Count(r) + 1;
    forall k | 0 <= k < Count(r)
      ensures Contents(q)[k] == Contents(r)[k]
    {
      DifferentSlots(r.nread + k, r.nread + Count(r));
    }
    assert Contents(q)[Count(r)] == b;
  }

  lemma GetRemoves(r: Ring)
    requires RingOk(r) && !Empty(r)
    ensures RingOk(GetByte(r)) && Contents(r) == [r.data[Slot(r.nread)]] + Contents(GetByte(r))
  {
    hide Slot;
    var q := GetByte(r);
    assert Count(q) == Count(r) - 1;
    forall k | 0 <= k < Count(q)
      ensures Contents(q)[k] == Contents(r)[k + 1]
    {
      if r.nread + 1 == WORD {
        WrapKeepsSlot(WORD + k);
      }
    }
  }

  // ----- The copying loops

  /** Store bytes one by one; the caller leaves off when the ring is full. */
  function PutAll(r: Ring, s: seq<Byte>): (q: Ring)
    requires |r.data| == PIPESIZE
    ensures |q.data| == PIPESIZE
  {
    if s == [] then r else PutByte(PutAll(r, s[..|s| - 1]), s[|s| - 1])
  }

  lemma {:induction false} PutAllAppends(r: Ring, s: seq<Byte>)
    requires RingOk(r) && Count(r) + |s| <= PIPESIZE
    ensures RingOk(PutAll(r, s)) && Contents(PutAll(r, s)) == Contents(r) + s
  {
    if s != [] {
      var s' := s[..|s| - 1];
      PutAllAppends(r, s');
      FullMeans(PutAll(r, s'));
      PutAppends(PutAll(r, s'), s[|s| - 1]);
    }
  }

  function GetMany(r: Ring, n: nat): (q: Ring)
    requires |r.data| == PIPESIZE
    ensures |q.data| == PIPESIZE
  {
    if n == 0 then r else GetByte(GetMany(r, n - 1))
  }

  lemma {:induction false} GetManyRemoves(r: Ring, n: nat)
    requires RingOk(r) && n <= Count(r)
    ensures RingOk(GetMany(r, n)) && Contents(GetMany(r, n)) == Contents(r)[n..]
  {
    if n > 0 {
      GetManyRemoves(r, n - 1);
      FullMeans(GetMany(r, n - 1));
      GetRemoves(GetMany(r, n - 1));
    }
  }
}
