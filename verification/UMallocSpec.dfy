/** The circular free list of umalloc.c.  Addresses and sizes count units of one header. */
module UMallocSpec {

  datatype Blk = Blk(addr: nat, size: nat) {
    function End(): (e: nat) { addr + size }
  }

  predicate Apart(x: Blk, y: Blk) {
    x.End() <= y.addr || y.End() <= x.addr
  }

  /** Base stands first and is empty; every other block is not.  Each block ends strictly
      below the next one: the list is in address order, no two blocks overlap and no two
      touch, so neighbours have all been coalesced. */
  ghost predicate Sorted(list: seq<Blk>) {
    && 0 < |list| && list[0].size == 0
    && (forall i | 0 < i < |list| :: 1 <= list[i].size)
    && (forall i, j | 0 <= i < j < |list| :: list[i].End() < list[j].addr)
  }

  /** Unit `u` lies in one of the blocks. */
  ghost predicate Covers(list: seq<Blk>, u: nat) {
    exists i :: 0 <= i < |list| && list[i].addr <= u < list[i].End()
  }

  /** `b` lies strictly after free block `t`'s header and before the next free block. */
  predicate Between(list: seq<Blk>, t: nat, b: Blk) {
    && t < |list| && 1 <= b.size
    && list[t].addr < b.addr && list[t].End() <= b.addr
    && (t + 1 < |list| ==> b.End() <= list[t + 1].addr)
  }

  // ----- free: the list with a block added and merged with its neighbours

  predicate JoinsUp(list: seq<Blk>, t: nat, b: Blk) {
    t + 1 < |list| && b.End() == list[t + 1].addr
  }

  predicate JoinsDown(list: seq<Blk>, t: nat, b: Blk)
    requires t < |list|
  {
    list[t].End() == b.addr
  }

  /** The list with elements a..b replaced by `m`. */
  function Splice(list: seq<Blk>, a: nat, b: nat, m: Blk): (r: seq<Blk>)
    requires a <= b <= |list|
    ensures |r| == |list| - (b - a) + 1
    ensures forall i | 0 <= i < a :: r[i] == list[i]
    ensures r[a] == m
    ensures forall i | a < i < |r| :: r[i] == list[i + (b - a) - 1]
  {
    list[..a] + [m] + list[b..]
  }

  lemma SpliceSorted(list: seq<Blk>, a: nat, b: nat, m: Blk)
    requires Sorted(list) && 0 < a <= b <= |list| && 1 <= m.size
    requires list[a - 1].End() < m.addr && (b < |list| ==> m.End() < list[b].addr)
    ensures Sorted(Splice(list, a, b, m))
  {
    var r := Splice(list, a, b, m);
    assert forall i | 0 <= i < a :: list[i].End() < m.addr;
    assert forall i | b <= i < |list| :: m.End() < list[i].addr;
  }

  /** Splicing keeps the units outside the gap and puts those of `m` there. */
  lemma SpliceUnits(list: seq<Blk>, a: nat, b: nat, m: Blk, u: nat)
    requires a <= b <= |list|
    ensures Covers(Splice(list, a, b, m), u) <==>
      Covers(list[..a], u) || Covers(list[b..], u) || m.addr <= u < m.End()
  {
    var r := Splice(list, a, b, m);
    if Covers(list[..a], u) {
      var i :| 0 <= i < a && list[..a][i].addr <= u < list[..a][i].End();
      assert r[i] == list[..a][i];
    }
    if Covers(list[b..], u) {
      var i :| 0 <= i < |list| - b && list[b..][i].addr <= u < list[b..][i].End();
      assert r[i + a + 1] == list[b..][i];
    }
    if m.addr <= u < m.End() {
      assert r[a] == m;
    }
    if Covers(r, u) {
      var i :| 0 <= i < |r| && r[i].addr <= u < r[i].End();
      if i < a {
        assert list[..a][i] == r[i];
      } else if i > a {
        assert list[b..][i - a - 1] == r[i];
      }
    }
  }

  /** The block that free() leaves in the list in place of `b`. */
  function Merged(list: seq<Blk>, t: nat, b: Blk): (m: Blk)
    requires t < |list|
  {
    var size := b.size + if JoinsUp(list, t, b) then list[t + 1].size else 0;
    if JoinsDown(list, t, b) then Blk(list[t].addr, list[t].size + size) else Blk(b.addr, size)
  }

  /** The elements a..b of the list that it replaces. */
  function MergedFrom(list: seq<Blk>, t: nat, b: Blk): (a: nat)
    requires t < |list|
  {
    if JoinsDown(list, t, b) then t else t + 1
  }

  function MergedTo(list: seq<Blk>, t: nat, b: Blk): (e: nat)
    requires t < |list|
    ensures t < e <= |list|
  {
    if JoinsUp(list, t, b) then t + 2 else t + 1
  }

  function Release(list: seq<Blk>, t: nat, b: Blk): (r: seq<Blk>)
    requires t < |list|
  {
    Splice(list, MergedFrom(list, t, b), MergedTo(list, t, b), Merged(list, t, b))
  }

  lemma ReleaseSorted(list: seq<Blk>, t: nat, b: Blk)
    requires Sorted(list) && Between(list, t, b)
    ensures Sorted(Release(list, t, b))
  {
    SpliceSorted(list, MergedFrom(list, t, b), MergedTo(list, t, b), Merged(list, t, b));
  }

  lemma UnitsSplit(list: seq<Blk>, t: nat, u: nat)
    requires t <= |list|
    ensures Covers(list, u) <==> Covers(list[..t], u) || Covers(list[t..], u)
  {
    if Covers(list, u) {
      var i :| 0 <= i < |list| && list[i].addr <= u < list[i].End();
      if i < t {
        assert list[..t][i] == list[i];
      } else {
        assert list[t..][i - t] == list[i];
      }
    }
  }

  lemma UnitsFirst(list: seq<Blk>, t: nat, u: nat)
    requires t < |list|
    ensures Covers(list[t..], u) <==> Covers(list[t + 1..], u) || list[t].addr <= u < list[t].End()
  {
    UnitsSplit(list[t..], 1, u);
    assert list[t..][1..] == list[t + 1..];
    assert list[t..][..1] == [list[t]];
  }

  /** free() adds exactly the units of the block that is given back. */
  lemma ReleaseUnits(list: seq<Blk>, t: nat, b: Blk, u: nat)
    requires Sorted(list) && Between(list, t, b)
    ensures Covers(Release(list, t, b), u) <==> Covers(list, u) || b.addr <= u < b.End()
  {
    UnitsSplit(list, t, u);
    UnitsSplit(list, t + 1, u);
    UnitsFirst(list, t, u);
    if JoinsUp(list, t, b) {
      UnitsFirst(list, t + 1, u);
    }
    SpliceUnits(list, MergedFrom(list, t, b), MergedTo(list, t, b), Merged(list, t, b), u);
  }

  // ----- malloc: the tail of one block is handed out

  function Unlink(list: seq<Blk>, k: nat): (r: seq<Blk>)
    requires k < |list|
    ensures |r| == |list| - 1
    ensures forall i | 0 <= i < k :: r[i] == list[i]
    ensures forall i | k <= i < |r| :: r[i] == list[i + 1]
  {
    list[..k] + list[k + 1..]
  }

  lemma UnlinkSorted(list: seq<Blk>, k: nat)
    requires Sorted(list) && 0 < k < |list|
    ensures Sorted(Unlink(list, k))
  {
  }

  /** The list with `n` units taken from the end of block `k`; an exact fit is unlinked. */
  function Take(list: seq<Blk>, k: nat, n: nat): (r: seq<Blk>)
    requires k < |list| && n <= list[k].size
  {
    if list[k].size == n then Unlink(list, k)
    else Splice(list, k, k + 1, Blk(list[k].addr, list[k].size - n))
  }

  lemma TakeSorted(list: seq<Blk>, k: nat, n: nat)
    requires Sorted(list) && 0 < k < |list| && 1 <= n <= list[k].size
    ensures Sorted(Take(list, k, n))
  {
    if list[k].size == n {
      UnlinkSorted(list, k);
    } else {
      SpliceSorted(list, k, k + 1, Blk(list[k].addr, list[k].size - n));
    }
  }

  lemma OnlyIn(list: seq<Blk>, k: nat, u: nat)
    requires Sorted(list) && k < |list| && list[k].addr <= u < list[k].End()
    ensures !Covers(list[..k], u) && !Covers(list[k + 1..], u)
  {
  }

  /** malloc() removes exactly the units it hands out. */
  lemma TakeUnits(list: seq<Blk>, k: nat, n: nat, u: nat)
    requires Sorted(list) && k < |list| && 1 <= n <= list[k].size
    ensures Covers(Take(list, k, n), u) <==>
      Covers(list, u) && !(list[k].End() - n <= u < list[k].End())
  {
    UnitsSplit(list, k, u);
    UnitsFirst(list, k, u);
    if list[k].addr <= u < list[k].End() {
      OnlyIn(list, k, u);
    }
    if list[k].size == n {
      UnitsSplit(list[..k] + list[k + 1..], k, u);
      assert (list[..k] + list[k + 1..])[..k] == list[..k];
      assert (list[..k] + list[k + 1..])[k..] == list[k + 1..];
    } else {
      SpliceUnits(list, k, k + 1, Blk(list[k].addr, list[k].size - n), u);
    }
  }

  // ----- Header words

  /** Header words: next pointers, or sizes, by header address. */
  type Words = map<nat, nat>

  function Next(list: seq<Blk>, i: nat): (j: nat)
    requires i < |list|
    ensures j < |list|
  {
    if i + 1 == |list| then 0 else i + 1
  }

  ghost predicate NodeOk(list: seq<Blk>, ptr: Words, size: Words, i: nat)
    requires i < |list|
  {
    && list[i].addr in ptr && ptr[list[i].addr] == list[Next(list, i)].addr
    && list[i].addr in size && size[list[i].addr] == list[i].size
  }

  /** Memory holds the list as one cycle through its first block. */
  ghost predicate Matches(list: seq<Blk>, ptr: Words, size: Words) {
    forall i: nat | i < |list| :: NodeOk(list, ptr, size, i)
  }

  lemma InMemory(list: seq<Blk>, ptr: Words, size: Words)
    requires Matches(list, ptr, size)
    ensures forall i | 0 <= i < |list| ::
      list[i].addr in ptr && list[i].addr in size && size[list[i].addr] == list[i].size
  {
    forall i | 0 <= i < |list|
      ensures list[i].addr in ptr && list[i].addr in size && size[list[i].addr] == list[i].size
    {
      assert NodeOk(list, ptr, size, i);
    }
  }

  /** Memory as free() leaves it: `p` is the header of block t, `bp` that of the block. */
  function FreePtr(ptr: Words, size: Words, p: nat, bp: nat): (r: Words)
    requires bp in size && p in size && p in ptr && ptr[p] in ptr
  {
    var up := bp + size[bp] == ptr[p];
    var next := if up then ptr[ptr[p]] else ptr[p];
    if p + size[p] == bp then ptr[bp := next][p := next] else ptr[bp := next][p := bp]
  }

  function FreeSize(ptr: Words, size: Words, p: nat, bp: nat): (r: Words)
    requires bp in size && p in size && p in ptr && ptr[p] in size
  {
    var total := size[bp] + if bp + size[bp] == ptr[p] then size[ptr[p]] else 0;
    if p + size[p] == bp then size[bp := total][p := size[p] + total] else size[bp := total]
  }

  lemma SpliceMatches(list: seq<Blk>, a: nat, b: nat, m: Blk, ptr: Words, size: Words, ptr': Words, size': Words)
    requires 0 < a <= b <= |list| && Matches(list, ptr, size)
    requires m.addr in ptr' && m.addr in size' && size'[m.addr] == m.size
    requires ptr'[m.addr] == if b < |list| then list[b].addr else list[0].addr
    requires list[a - 1].addr in ptr' && ptr'[list[a - 1].addr] == m.addr
    requires forall i | 0 <= i < a || b <= i < |list| ::
      list[i].addr in size' && size'[list[i].addr] == list[i].size
    requires forall i | 0 <= i < a - 1 || b <= i < |list| ::
      list[i].addr in ptr && list[i].addr in ptr' && ptr'[list[i].addr] == ptr[list[i].addr]
    ensures Matches(Splice(list, a, b, m), ptr', size')
  {
    var r := Splice(list, a, b, m);
    forall i: nat | i < |r|
      ensures NodeOk(r, ptr', size', i)
    {
      if i < a - 1 {
        assert NodeOk(list, ptr, size, i);
      } else if i > a {
        assert NodeOk(list, ptr, size, i + (b - a) - 1);
      }
    }
  }

  lemma OtherHeaders(list: seq<Blk>, t: nat, b: Blk)
    requires Sorted(list) && Between(list, t, b)
    ensures forall i | 0 <= i < |list| :: list[i].addr != b.addr
    ensures forall i | 0 <= i < |list| && i != t :: list[i].addr != list[t].addr
  {
    forall i | 0 <= i < |list|
      ensures list[i].addr != b.addr && (i != t ==> list[i].addr != list[t].addr)
    {
      if t < i {
        assert list[t + 1].addr <= list[i].addr;
      } else if i < t {
        assert list[i].End() < list[t].addr;
      }
    }
  }

  lemma ReleaseDownMatches(list: seq<Blk>, t: nat, b: Blk, ptr: Words, size: Words)
    requires Sorted(list) && Between(list, t, b) && Matches(list, ptr, size) && JoinsDown(list, t, b)
    requires b.addr in size && size[b.addr] == b.size
    ensures var p := list[t].addr;
      && p in size && p in ptr && ptr[p] in ptr && ptr[p] in size
      && Matches(Release(list, t, b), FreePtr(ptr, size, p, b.addr), FreeSize(ptr, size, p, b.addr))
  {
    var p := list[t].addr;
    OtherHeaders(list, t, b);
    InMemory(list, ptr, size);
    assert NodeOk(list, ptr, size, t) && NodeOk(list, ptr, size, Next(list, t));
    assert JoinsUp(list, t, b) ==> NodeOk(list, ptr, size, t + 1);
    var ptr', size' := FreePtr(ptr, size, p, b.addr), FreeSize(ptr, size, p, b.addr);
    var m := Merged(list, t, b);
    var e := MergedTo(list, t, b);
    assert size'[m.addr] == m.size;
    assert ptr'[m.addr] == if e < |list| then list[e].addr else list[0].addr;
    assert 0 < t && NodeOk(list, ptr, size, t - 1);
    SpliceMatches(list, t, e, m, ptr, size, ptr', size');
  }

  lemma ReleaseBesideMatches(list: seq<Blk>, t: nat, b: Blk, ptr: Words, size: Words)
    requires Sorted(list) && Between(list, t, b) && Matches(list, ptr, size) && !JoinsDown(list, t, b)
    requires b.addr in size && size[b.addr] == b.size
    ensures var p := list[t].addr;
      && p in size && p in ptr && ptr[p] in ptr && ptr[p] in size
      && Matches(Release(list, t, b), FreePtr(ptr, size, p, b.addr), FreeSize(ptr, size, p, b.addr))
  {
    var p := list[t].addr;
    OtherHeaders(list, t, b);
    InMemory(list, ptr, size);
    assert NodeOk(list, ptr, size, t) && NodeOk(list, ptr, size, Next(list, t));
    assert JoinsUp(list, t, b) ==> NodeOk(list, ptr, size, t + 1);
    var ptr', size' := FreePtr(ptr, size, p, b.addr), FreeSize(ptr, size, p, b.addr);
    var m := Merged(list, t, b);
    var e := MergedTo(list, t, b);
    assert size'[m.addr] == m.size;
    assert ptr'[m.addr] == if e < |list| then list[e].addr else list[0].addr;
    SpliceMatches(list, t + 1, e, m, ptr, size, ptr', size');
  }

  /** What free() writes to memory is the list that Release describes. */
  lemma ReleaseMatches(list: seq<Blk>, t: nat, b: Blk, ptr: Words, size: Words)
    requires Sorted(list) && Between(list, t, b) && Matches(list, ptr, size)
    requires b.addr in size && size[b.addr] == b.size
    ensures var p := list[t].addr;
      && p in size && p in ptr && ptr[p] in ptr && ptr[p] in size
      && Matches(Release(list, t, b), FreePtr(ptr, size, p, b.addr), FreeSize(ptr, size, p, b.addr))
  {
    assert NodeOk(list, ptr, size, t) && NodeOk(list, ptr, size, Next(list, t));
    if JoinsDown(list, t, b) {
      ReleaseDownMatches(list, t, b, ptr, size);
    } else {
      ReleaseBesideMatches(list, t, b, ptr, size);
    }
  }

  /** Memory as malloc() leaves it: `p` has been found, `prev` is the block before it. */
  function TakePtr(ptr: Words, size: Words, prev: nat, p: nat, n: nat): (r: Words)
    requires p in ptr && p in size
  {
    if size[p] == n then ptr[prev := ptr[p]] else ptr
  }

  function TakeSize(size: Words, p: nat, n: nat): (r: Words)
    requires p in size && n <= size[p]
  {
    if size[p] == n then size else size[p := size[p] - n][p + (size[p] - n) := n]
  }

  lemma TakeAllMatches(list: seq<Blk>, k: nat, ptr: Words, size: Words)
    requires Sorted(list) && Matches(list, ptr, size) && 0 < k < |list|
    requires list[k].addr in ptr
    ensures Matches(Unlink(list, k), ptr[list[k - 1].addr := ptr[list[k].addr]], size)
  {
    var r := Unlink(list, k);
    var ptr' := ptr[list[k - 1].addr := ptr[list[k].addr]];
    assert NodeOk(list, ptr, size, k) && NodeOk(list, ptr, size, k - 1);
    forall i: nat | i < |r|
      ensures NodeOk(r, ptr', size, i)
    {
      var j := if i < k then i else i + 1;
      assert NodeOk(list, ptr, size, j);
      if j < k - 1 {
        assert list[j].End() < list[k - 1].addr;
      } else if k < j {
        assert list[k - 1].End() < list[j].addr;
      }
    }
  }

  lemma TailIsApart(list: seq<Blk>, k: nat, n: nat)
    requires Sorted(list) && k < |list| && 1 <= n <= list[k].size
    ensures forall i | 0 <= i < |list| && i != k ::
      list[i].addr != list[k].addr && Apart(list[i], Blk(list[k].End() - n, n)) && list[i].addr != list[k].End() - n
  {
  }

  lemma TakeSomeMatches(list: seq<Blk>, k: nat, n: nat, ptr: Words, size: Words)
    requires Sorted(list) && Matches(list, ptr, size) && 0 < k < |list| && 1 <= n < list[k].size
    requires list[k].addr in size && size[list[k].addr] == list[k].size
    ensures Matches(Splice(list, k, k + 1, Blk(list[k].addr, list[k].size - n)), ptr, TakeSize(size, list[k].addr, n))
  {
    InMemory(list, ptr, size);
    TailIsApart(list, k, n);
    assert NodeOk(list, ptr, size, k) && NodeOk(list, ptr, size, k - 1);
    SpliceMatches(list, k, k + 1, Blk(list[k].addr, list[k].size - n), ptr, size, ptr, TakeSize(size, list[k].addr, n));
  }

  /** What malloc() writes to memory is the list that Take describes. */
  lemma TakeMatches(list: seq<Blk>, k: nat, n: nat, ptr: Words, size: Words)
    requires Sorted(list) && Matches(list, ptr, size) && 0 < k < |list| && 1 <= n <= list[k].size
    ensures var p := list[k].addr;
      && p in ptr && p in size && n <= size[p]
      && Matches(Take(list, k, n), TakePtr(ptr, size, list[k - 1].addr, p, n), TakeSize(size, p, n))
  {
    assert NodeOk(list, ptr, size, k);
    if list[k].size == n {
      TakeAllMatches(list, k, ptr, size);
    } else {
      TakeSomeMatches(list, k, n, ptr, size);
    }
  }

  // ----- Blocks in use

  /** Allocated blocks: header address to size in units. */
  type Live = map<nat, nat>

  ghost predicate AllApart(list: seq<Blk>, x: Blk) {
    forall i | 0 <= i < |list| :: Apart(list[i], x)
  }

  ghost predicate AllBelow(list: seq<Blk>, brk: nat) {
    forall i | 0 <= i < |list| :: list[i].End() <= brk
  }

  /** An allocated block lies above base and below the break, is apart from every free
      block, and its header still holds its size. */
  ghost predicate LiveBlock(list: seq<Blk>, size: Words, brk: nat, x: Blk) {
    && 0 < |list| && list[0].addr < x.addr && 1 <= x.size && x.End() <= brk
    && AllApart(list, x)
    && x.addr in size && size[x.addr] == x.size
  }

  ghost predicate LiveApart(live: Live) {
    forall a, b | a in live && b in live && a != b :: Apart(Blk(a, live[a]), Blk(b, live[b]))
  }

  ghost predicate LiveOk(list: seq<Blk>, live: Live, size: Words, brk: nat) {
    && AllBelow(list, brk)
    && (forall a | a in live :: LiveBlock(list, size, brk, Blk(a, live[a])))
    && LiveApart(live)
  }

  ghost predicate LiveUnit(live: Live, u: nat) {
    exists a :: a in live && a <= u < a + live[a]
  }

  /** Every unit obtained from sbrk is either free or allocated. */
  ghost predicate Accounted(list: seq<Blk>, live: Live, core: seq<Blk>) {
    forall u: nat :: Covers(core, u) <==> Covers(list, u) || LiveUnit(live, u)
  }

  /** ... and never both. */
  lemma NeverBoth(list: seq<Blk>, live: Live, size: Words, brk: nat, u: nat)
    requires LiveOk(list, live, size, brk) && Covers(list, u)
    ensures !LiveUnit(live, u)
  {
    forall a | a in live
      ensures !(a <= u < a + live[a])
    {
      assert LiveBlock(list, size, brk, Blk(a, live[a]));
    }
  }

  lemma MergedApart(list: seq<Blk>, t: nat, b: Blk, x: Blk)
    requires Between(list, t, b) && 1 <= x.size && AllApart(list, x) && Apart(b, x)
    ensures AllApart(Release(list, t, b), x)
  {
    assert Apart(list[t], x) && (t + 1 < |list| ==> Apart(list[t + 1], x));
    assert Apart(Merged(list, t, b), x);
    var r := Release(list, t, b);
    forall i | 0 <= i < |r|
      ensures Apart(r[i], x)
    {
    }
  }

  lemma MergedBelow(list: seq<Blk>, t: nat, b: Blk, brk: nat)
    requires Between(list, t, b) && AllBelow(list, brk) && b.End() <= brk
    ensures AllBelow(Release(list, t, b), brk)
  {
    var r := Release(list, t, b);
    forall i | 0 <= i < |r|
      ensures r[i].End() <= brk
    {
    }
  }

  lemma ReleaseKeepsBlock(list: seq<Blk>, t: nat, b: Blk, ptr: Words, size: Words, brk: nat, x: Blk)
    requires Sorted(list) && Between(list, t, b) && b.addr in size && Matches(list, ptr, size)
    requires LiveBlock(list, size, brk, x) && Apart(b, x)
    ensures var p := list[t].addr;
      && p in size && p in ptr && ptr[p] in size
      && LiveBlock(Release(list, t, b), FreeSize(ptr, size, p, b.addr), brk, x)
  {
    assert NodeOk(list, ptr, size, t) && NodeOk(list, ptr, size, Next(list, t));
    MergedApart(list, t, b, x);
    assert Apart(list[t], x);
    assert Release(list, t, b)[0] == list[0];
  }

  lemma ReleaseLive(list: seq<Blk>, t: nat, b: Blk, ptr: Words, live: Live, size: Words, brk: nat)
    requires Sorted(list) && Between(list, t, b) && LiveOk(list, live, size, brk) && Matches(list, ptr, size)
    requires b.addr in live && live[b.addr] == b.size
    ensures var p := list[t].addr;
      && b.addr in size && p in size && p in ptr && ptr[p] in size
      && LiveOk(Release(list, t, b), live - {b.addr}, FreeSize(ptr, size, p, b.addr), brk)
  {
    assert NodeOk(list, ptr, size, t) && NodeOk(list, ptr, size, Next(list, t));
    assert LiveBlock(list, size, brk, Blk(b.addr, live[b.addr]));
    MergedBelow(list, t, b, brk);
    forall a | a in live - {b.addr}
      ensures LiveBlock(Release(list, t, b), FreeSize(ptr, size, list[t].addr, b.addr), brk,
        Blk(a, (live - {b.addr})[a]))
    {
      assert LiveBlock(list, size, brk, Blk(a, live[a]));
      ReleaseKeepsBlock(list, t, b, ptr, size, brk, Blk(a, live[a]));
    }
  }

  lemma TakeWithin(list: seq<Blk>, k: nat, n: nat, i: nat)
    requires k < |list| && n <= list[k].size && i < |Take(list, k, n)|
    ensures var x := Take(list, k, n)[i];
      exists j ::
        && 0 <= j < |list| && list[j].addr == x.addr && x.End() <= list[j].End()
        && (j == k ==> x.End() <= list[k].End() - n)
  {
    var r := Take(list, k, n);
    if list[k].size == n {
      assert r[i] == list[if i < k then i else i + 1];
    } else {
      assert r[i] == if i == k then Blk(list[k].addr, list[k].size - n) else list[i];
    }
  }

  lemma TakeKeepsBlock(list: seq<Blk>, k: nat, n: nat, size: Words, brk: nat, x: Blk)
    requires Sorted(list) && 0 < k < |list| && 1 <= n <= list[k].size
    requires list[k].addr in size && size[list[k].addr] == list[k].size
    requires LiveBlock(list, size, brk, x)
    ensures LiveBlock(Take(list, k, n), TakeSize(size, list[k].addr, n), brk, x)
  {
    var r := Take(list, k, n);
    assert Apart(list[k], x);
    assert r[0] == list[0];
    forall i | 0 <= i < |r|
      ensures Apart(r[i], x)
    {
      TakeWithin(list, k, n, i);
    }
  }

  lemma TakenBlock(list: seq<Blk>, k: nat, n: nat, size: Words, brk: nat)
    requires Sorted(list) && 0 < k < |list| && 1 <= n <= list[k].size && AllBelow(list, brk)
    requires list[k].addr in size && size[list[k].addr] == list[k].size
    ensures LiveBlock(Take(list, k, n), TakeSize(size, list[k].addr, n), brk, Blk(list[k].End() - n, n))
    ensures AllBelow(Take(list, k, n), brk)
  {
    var r := Take(list, k, n);
    TailIsApart(list, k, n);
    assert r[0] == list[0];
    forall i | 0 <= i < |r|
      ensures Apart(r[i], Blk(list[k].End() - n, n)) && r[i].End() <= brk
    {
      TakeWithin(list, k, n, i);
    }
  }

  lemma TakeLive(list: seq<Blk>, k: nat, n: nat, live: Live, size: Words, brk: nat)
    requires Sorted(list) && 0 < k < |list| && 1 <= n <= list[k].size && LiveOk(list, live, size, brk)
    requires list[k].addr in size && size[list[k].addr] == list[k].size
    ensures list[k].End() - n !in live
    ensures LiveOk(Take(list, k, n), live[list[k].End() - n := n], TakeSize(size, list[k].addr, n), brk)
  {
    var c := list[k].End() - n;
    forall a | a in live
      ensures a != c && Apart(Blk(a, live[a]), Blk(c, n))
      ensures LiveBlock(Take(list, k, n), TakeSize(size, list[k].addr, n), brk, Blk(a, live[a]))
    {
      assert LiveBlock(list, size, brk, Blk(a, live[a]));
      assert Apart(list[k], Blk(a, live[a]));
      TakeKeepsBlock(list, k, n, size, brk, Blk(a, live[a]));
    }
    TakenBlock(list, k, n, size, brk);
  }

  /** A block that sbrk hands out above the break is apart from everything. */
  lemma FreshLive(list: seq<Blk>, live: Live, size: Words, brk: nat, hp: nat, n: nat)
    requires Sorted(list) && LiveOk(list, live, size, brk) && brk <= hp && 1 <= n && list[0].addr < brk
    ensures hp !in live
    ensures LiveOk(list, live[hp := n], size[hp := n], hp + n)
  {
    forall a | a in live
      ensures a != hp && Apart(Blk(a, live[a]), Blk(hp, n))
      ensures LiveBlock(list, size[hp := n], hp + n, Blk(a, live[a]))
    {
      assert LiveBlock(list, size, brk, Blk(a, live[a]));
    }
  }

  // ----- Where every unit is

  lemma LiveAdds(live: Live, c: nat, n: nat, u: nat)
    requires c !in live
    ensures LiveUnit(live[c := n], u) <==> LiveUnit(live, u) || c <= u < c + n
  {
    if LiveUnit(live, u) {
      var a :| a in live && a <= u < a + live[a];
      assert a in live[c := n] && live[c := n][a] == live[a];
    }
    if c <= u < c + n {
      assert c in live[c := n];
    }
  }

  lemma ReleaseAccounted(list: seq<Blk>, t: nat, b: Blk, live: Live, core: seq<Blk>)
    requires Sorted(list) && Between(list, t, b) && Accounted(list, live, core)
    requires b.addr in live && live[b.addr] == b.size
    ensures Accounted(Release(list, t, b), live - {b.addr}, core)
  {
    var live' := live - {b.addr};
    assert live'[b.addr := b.size] == live;
    forall u: nat
      ensures Covers(core, u) <==> Covers(Release(list, t, b), u) || LiveUnit(live', u)
    {
      ReleaseUnits(list, t, b, u);
      LiveAdds(live', b.addr, b.size, u);
    }
  }

  lemma TakeAccounted(list: seq<Blk>, k: nat, n: nat, live: Live, core: seq<Blk>)
    requires Sorted(list) && k < |list| && 1 <= n <= list[k].size && Accounted(list, live, core)
    requires list[k].End() - n !in live
    ensures Accounted(Take(list, k, n), live[list[k].End() - n := n], core)
  {
    var c := list[k].End() - n;
    forall u: nat
      ensures Covers(core, u) <==> Covers(Take(list, k, n), u) || LiveUnit(live[c := n], u)
    {
      TakeUnits(list, k, n, u);
      LiveAdds(live, c, n, u);
      assert c <= u < c + n ==> list[k].addr <= u < list[k].End();
    }
  }

  lemma FreshAccounted(list: seq<Blk>, live: Live, core: seq<Blk>, b: Blk)
    requires Accounted(list, live, core) && b.addr !in live
    ensures Accounted(list, live[b.addr := b.size], core + [b])
  {
    forall u: nat
      ensures Covers(core + [b], u) <==> Covers(list, u) || LiveUnit(live[b.addr := b.size], u)
    {
      LiveAdds(live, b.addr, b.size, u);
      UnitsSplit(core + [b], |core|, u);
      assert (core + [b])[..|core|] == core && (core + [b])[|core|..] == [b];
      assert Covers([b], u) <==> b.addr <= u < b.End() by {
        assert [b][0] == b;
      }
    }
  }

  // ----- The list is determined by the set of free units

  /** The last block starts where the topmost run of free units starts, and ends with it. */
  lemma LastBlock(list: seq<Blk>)
    requires Sorted(list) && 1 < |list|
    ensures var b := list[|list| - 1];
      && (forall u: nat | b.addr <= u < b.End() :: Covers(list, u))
      && (forall u: nat | b.End() <= u :: !Covers(list, u))
      && 0 < b.addr && !Covers(list, b.addr - 1)
  {
    var n := |list|;
    var b := list[n - 1];
    assert list[0].End() < b.addr;
    forall i | 0 <= i < n - 1
      ensures list[i].End() <= b.addr - 1
    {
    }
  }

  lemma DropLastUnits(list: seq<Blk>, u: nat)
    requires Sorted(list) && 1 < |list|
    ensures Covers(list[..|list| - 1], u) <==>
      Covers(list, u) && !(list[|list| - 1].addr <= u < list[|list| - 1].End())
  {
    var n := |list| - 1;
    UnitsSplit(list, n, u);
    UnitsFirst(list, n, u);
    if list[n].addr <= u < list[n].End() {
      OnlyIn(list, n, u);
    }
  }

  lemma LastEnd(x: seq<Blk>, y: seq<Blk>)
    requires Sorted(x) && Sorted(y) && 1 < |x| && 1 < |y|
    requires forall u: nat :: Covers(x, u) <==> Covers(y, u)
    ensures x[|x| - 1].End() <= y[|y| - 1].End()
  {
    LastBlock(x);
    LastBlock(y);
    assert Covers(x, x[|x| - 1].End() - 1);
  }

  lemma LastStart(x: seq<Blk>, y: seq<Blk>)
    requires Sorted(x) && Sorted(y) && 1 < |x| && 1 < |y|
    requires forall u: nat :: Covers(x, u) <==> Covers(y, u)
    requires x[|x| - 1].End() == y[|y| - 1].End()
    ensures y[|y| - 1].addr <= x[|x| - 1].addr
  {
    LastBlock(x);
    LastBlock(y);
    assert !Covers(x, y[|y| - 1].addr - 1);
  }

  lemma AnyFree(list: seq<Blk>)
    requires Sorted(list)
    ensures 1 < |list| <==> exists u: nat :: Covers(list, u)
  {
    if 1 < |list| {
      LastBlock(list);
      assert Covers(list, list[|list| - 1].addr);
    }
  }

  /** Coalescing is complete: the free list depends only on which units are free, not on
      the order in which they were freed. */
  lemma {:induction false} Canonical(x: seq<Blk>, y: seq<Blk>)
    requires Sorted(x) && Sorted(y) && x[0] == y[0]
    requires forall u: nat :: Covers(x, u) <==> Covers(y, u)
    ensures x == y
    decreases |x|
  {
    AnyFree(x);
    AnyFree(y);
    if 1 < |x| {
      LastEnd(x, y);
      LastEnd(y, x);
      LastStart(x, y);
      LastStart(y, x);
      var x', y' := x[..|x| - 1], y[..|y| - 1];
      forall u: nat
        ensures Covers(x', u) <==> Covers(y', u)
      {
        DropLastUnits(x, u);
        DropLastUnits(y, u);
      }
      Canonical(x', y');
    }
  }
}
