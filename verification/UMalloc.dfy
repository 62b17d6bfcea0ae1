/** malloc, free and morecore of umalloc.c over header words in memory. */
module UMalloc {
  import opened Optional
  import opened UMallocSpec

  const MIN_UNITS := 4096

  /** Units for a request of `nbytes` bytes, header included, in 32-bit arithmetic. */
  function Units(nbytes: nat): (n: nat)
    requires nbytes < 0x1_0000_0000
    ensures 1 <= n <= 0x2000_0000
  {
    (nbytes + 8 - 1) % 0x1_0000_0000 / 8 + 1
  }

  /** Units that morecore asks for when `nunits` are needed. */
  function CoreUnits(nunits: nat): (n: nat) {
    if nunits < MIN_UNITS then MIN_UNITS else nunits
  }

  // ----- sbrk, whose argument is a signed 32-bit number of bytes

  const KERNBASE := 0x8000_0000

  /** nu * sizeof(Header) as sbrk gets it. */
  function SbrkArg(nu: nat): (n: int)
    ensures -0x8000_0000 <= n < 0x8000_0000 && (8 * nu - n) % 0x1_0000_0000 == 0
  {
    var bytes := nu * 8 % 0x1_0000_0000;
    if bytes < 0x8000_0000 then bytes else bytes - 0x1_0000_0000
  }

  /** The size that deallocuvm leaves of `size` bytes when asked for `size + n`, in 32 bits. */
  function Shrink(size: nat, n: int): (r: nat) {
    var newsz := (size + n) % 0x1_0000_0000;
    if newsz >= size then size else newsz
  }

  /** The size of the process after growproc(n), None if it refuses; `memory` tells whether
      the kernel finds enough page frames. */
  function Growproc(size: nat, n: int, memory: bool): (r: Option<nat>) {
    if n > 0 then if memory && size + n < KERNBASE then Some(size + n) else None
    else if n == 0 then Some(size)
    else if Shrink(size, n) == 0 then None
    else Some(Shrink(size, n))
  }

  /** growproc(n) for every n that fits 32 bits: it grows exactly if there is memory below
      KERNBASE for it, shrinks by what is asked if so much is there, refuses to shrink to nothing, and
      ignores a larger shrink. */
  lemma GrowprocIs(size: nat, n: int, memory: bool)
    requires size < 0x8000_0000 && -0x8000_0000 <= n < 0x8000_0000
    ensures 0 < n ==>
      Growproc(size, n, memory) == if memory && size + n < 0x8000_0000 then Some(size + n) else None
    ensures n <= 0 && 0 < size + n ==> Growproc(size, n, memory) == Some(size + n)
    ensures n < 0 && size + n == 0 ==> Growproc(size, n, memory) == None
    ensures n < 0 && size + n < 0 && 0 < size ==> Growproc(size, n, memory) == Some(size)
  {
  }

  /** What morecore asks for is what it gets exactly below 2 GB.  From there on sbrk may say
      yes, but the process does not grow. */
  lemma GrowsIff(size: nat, nu: nat, memory: bool)
    requires 1 <= nu <= 0x2000_0000 && size < KERNBASE && size % 8 == 0 && Growproc(size, SbrkArg(nu), memory).Some?
    ensures var now := Growproc(size, SbrkArg(nu), memory).value;
      && now % 8 == 0 && now < KERNBASE
      && (nu < 0x1000_0000 ==> now == size + 8 * nu)
      && (nu >= 0x1000_0000 ==> now <= size)
  {
    if nu >= 0x1000_0000 {
      assert SbrkArg(nu) == 8 * nu - 0x1_0000_0000;
    } else {
      assert SbrkArg(nu) == 8 * nu;
    }
  }

  /** The first page boundary from `size` on: the pages below it are there. */
  function PageUp(size: nat): (r: nat)
    ensures r % 4096 == 0 && size <= r < size + 4096
  {
    (size + 4095) / 4096 * 4096
  }

  /** A store at the old end `top` of a process that now has `now` bytes hits a missing page. */
  predicate Traps(top: nat, now: nat) {
    PageUp(now) <= top
  }

  /** It never does if the process has grown.  Otherwise it does exactly if the old end was at a
      page boundary, or the page it was in has been given back. */
  lemma TrapsIff(top: nat, now: nat)
    ensures Traps(top, now) <==> now <= top && (top % 4096 == 0 || now <= top - top % 4096)
  {
  }

  /** How malloc ends: null, a page fault that kills the process, or a block. */
  datatype Answer = Null | Trapped | Block(ap: nat)

  /** What sbrk makes of a request for nu units: refusal, memory, or a break that the header
      store in morecore does not survive. */
  predicate Refuses(top: nat, nu: nat, memory: bool) {
    Growproc(top, SbrkArg(nu), memory).None?
  }

  predicate Faults(top: nat, nu: nat, memory: bool) {
    var grown := Growproc(top, SbrkArg(nu), memory);
    grown.Some? && Traps(top, grown.value)
  }

  /** sbrk has given what morecore asks for when nunits are needed: from the old end on, as far as
      the books go. */
  ghost predicate Extended(top: nat, core: seq<Blk>, nunits: nat, memory: bool, now: nat, core': seq<Blk>, brk: nat) {
    && !Refuses(top, CoreUnits(nunits), memory) && !Faults(top, CoreUnits(nunits), memory)
    && Some(now) == Growproc(top, SbrkArg(CoreUnits(nunits)), memory)
    && brk == top / 8 + CoreUnits(nunits) && core' == core + [Blk(top / 8, CoreUnits(nunits))]
  }

  /** A request that the rounding leaves large enough and sbrk can add. */
  lemma RequestFits(nbytes: nat)
    requires nbytes < 0x1_0000_0000
    ensures nbytes <= 8 * (Units(nbytes) - 1) <==> nbytes + 7 < 0x1_0000_0000
    ensures nbytes + 7 < 0x1_0000_0000 ==> 8 * (Units(nbytes) - 1) <= nbytes + 7
    ensures nbytes <= 8 * (Units(nbytes) - 1) && Units(nbytes) < 0x1000_0000 <==> nbytes <= 0x7FFF_FFF0
  {
    if nbytes + 7 >= 0x1_0000_0000 {
      assert (nbytes + 7) % 0x1_0000_0000 == nbytes + 7 - 0x1_0000_0000;
    }
  }

  // ----- free's search for the place of a block

  /** The test that ends the loop in free(), at the block with address p and successor q. */
  predicate StopsAt(p: nat, q: nat, bp: nat) {
    (bp > p && bp < q) || (p >= q && (bp > p || bp < q))
  }

  lemma StopsAtPlace(list: seq<Blk>, i: nat, b: Blk)
    requires Sorted(list) && i < |list| && list[0].addr < b.addr && 1 <= b.size && AllApart(list, b)
    ensures StopsAt(list[i].addr, list[Next(list, i)].addr, b.addr) <==> Between(list, i, b)
  {
    if i + 1 < |list| {
      assert list[i].End() < list[i + 1].addr;
      assert Apart(list[i], b) && Apart(list[i + 1], b);
    } else {
      assert Apart(list[i], b);
      assert i == 0 || list[0].End() < list[i].addr;
    }
  }

  /** Every block apart from the list has a place in it. */
  lemma {:induction false} HasPlace(list: seq<Blk>, b: Blk, n: nat) returns (t: nat)
    requires Sorted(list) && 0 < n <= |list| && list[0].addr < b.addr && 1 <= b.size && AllApart(list, b)
    requires n < |list| ==> b.addr < list[n].addr
    ensures Between(list, t, b)
  {
    if list[n - 1].addr < b.addr {
      t := n - 1;
      assert Apart(list[t], b) && (t + 1 < |list| ==> Apart(list[t + 1], b));
    } else {
      assert Apart(list[n - 1], b);
      t := HasPlace(list, b, n - 1);
    }
  }

  /** Steps from index i round to index t. */
  function Distance(n: nat, i: nat, t: nat): (d: nat)
    requires i < n && t < n
  {
    if i <= t then t - i else t + n - i
  }

  // ----- malloc's walk round the list

  /** The index `k` steps after `f`. */
  function Around(n: nat, f: nat, k: nat): (i: nat)
    requires f < n && k <= n
    ensures i < n
  {
    if f + k < n then f + k else f + k - n
  }

  ghost predicate TooSmall(list: seq<Blk>, f: nat, k: nat, nunits: nat)
    requires f < |list| && k <= |list|
  {
    forall j | 1 <= j <= k :: list[Around(|list|, f, j)].size < nunits
  }

  /** After one round every block has been looked at. */
  lemma WholeRound(list: seq<Blk>, f: nat, nunits: nat)
    requires f < |list| && TooSmall(list, f, |list|, nunits)
    ensures !HasBlock(list, nunits)
  {
    forall i | 0 <= i < |list|
      ensures list[i].size < nunits
    {
      var j := if f < i then i - f else i - f + |list|;
      assert Around(|list|, f, j) == i;
    }
  }

  ghost predicate HasBlock(list: seq<Blk>, n: nat) {
    exists j :: 0 <= j < |list| && n <= list[j].size
  }

  /** A heap: the free list with base first, the blocks in use, the blocks obtained from
      sbrk, the header words, and the break. */
  datatype Image = Image(list: seq<Blk>, live: Live, core: seq<Blk>, ptr: Words, size: Words, brk: nat)

  ghost predicate HeapOk(base: nat, h: Image) {
    match h
    case Image(list, live, core, ptr, size, brk) =>
      && Sorted(list) && list[0] == Blk(base, 0) && base < brk
      && Matches(list, ptr, size)
      && LiveOk(list, live, size, brk)
      && Accounted(list, live, core)
  }

  lemma BlockInHeap(base: nat, h: Image, i: nat)
    requires HeapOk(base, h) && i < |h.list|
    ensures NodeOk(h.list, h.ptr, h.size, i) && base <= h.list[i].addr
  {
    assert i == 0 || h.list[0].End() < h.list[i].addr;
    assert NodeOk(h.list, h.ptr, h.size, i);
  }

  ghost predicate CanFree(h: Image, t: nat, bp: nat) {
    && bp in h.live && Between(h.list, t, Blk(bp, h.live[bp]))
    && var p := h.list[t].addr;
    && bp in h.size && p in h.size && p in h.ptr && h.ptr[p] in h.ptr && h.ptr[p] in h.size
  }

  /** The heap after free() of the block at `bp`, which comes after free block `t`. */
  ghost function Freed(h: Image, t: nat, bp: nat): (r: Image)
    requires CanFree(h, t, bp)
  {
    var p := h.list[t].addr;
    Image(Release(h.list, t, Blk(bp, h.live[bp])), h.live - {bp}, h.core,
          FreePtr(h.ptr, h.size, p, bp), FreeSize(h.ptr, h.size, p, bp), h.brk)
  }

  lemma FreedOk(base: nat, h: Image, t: nat, bp: nat)
    requires HeapOk(base, h) && bp in h.live && Between(h.list, t, Blk(bp, h.live[bp]))
    ensures CanFree(h, t, bp) && HeapOk(base, Freed(h, t, bp))
    ensures h.list[t].addr < bp && h.ptr[h.list[t].addr] != bp
    ensures var list := Freed(h, t, bp).list;
      t < |list| && list[t].addr == h.list[t].addr && HasBlock(list, h.live[bp])
  {
    var b := Blk(bp, h.live[bp]);
    OtherHeaders(h.list, t, b);
    BlockInHeap(base, h, t);
    BlockInHeap(base, h, Next(h.list, t));
    assert LiveBlock(h.list, h.size, h.brk, b);
    hide Sorted, Matches, LiveOk, Accounted;
    ReleaseSorted(h.list, t, b);
    ReleaseMatches(h.list, t, b, h.ptr, h.size);
    ReleaseLive(h.list, t, b, h.ptr, h.live, h.size, h.brk);
    ReleaseAccounted(h.list, t, b, h.live, h.core);
    assert Release(h.list, t, b)[MergedFrom(h.list, t, b)] == Merged(h.list, t, b);
  }

  /** No free block begins between the one it came after and the freed one. */
  lemma FreedNear(base: nat, h: Image, t: nat, bp: nat)
    requires HeapOk(base, h) && bp in h.live && Between(h.list, t, Blk(bp, h.live[bp]))
    ensures var list := Release(h.list, t, Blk(bp, h.live[bp]));
      forall i | 0 <= i < |list| :: list[i].addr <= h.list[t].addr || bp <= list[i].addr
  {
  }

  ghost predicate CanTake(h: Image, k: nat, n: nat) {
    && 0 < k < |h.list| && 1 <= n <= h.list[k].size
    && var p := h.list[k].addr;
    && p in h.ptr && p in h.size && h.size[p] == h.list[k].size
  }

  /** The heap after malloc() has taken `n` units from free block `k`. */
  ghost function Taken(h: Image, k: nat, n: nat): (r: Image)
    requires CanTake(h, k, n)
  {
    var p := h.list[k].addr;
    Image(Take(h.list, k, n), h.live[h.list[k].End() - n := n], h.core,
          TakePtr(h.ptr, h.size, h.list[k - 1].addr, p, n), TakeSize(h.size, p, n), h.brk)
  }

  lemma TakenOk(base: nat, h: Image, k: nat, n: nat)
    requires HeapOk(base, h) && 0 < k < |h.list| && 1 <= n <= h.list[k].size
    ensures CanTake(h, k, n) && HeapOk(base, Taken(h, k, n))
    ensures h.list[k].End() - n !in h.live
    ensures base <= h.list[k - 1].addr == Taken(h, k, n).list[k - 1].addr
  {
    hide Sorted, Matches, LiveOk, Accounted;
    BlockInHeap(base, h, k);
    BlockInHeap(base, h, k - 1);
    TakeSorted(h.list, k, n);
    TakeMatches(h.list, k, n, h.ptr, h.size);
    TakeLive(h.list, k, n, h.live, h.size, h.brk);
    TakeAccounted(h.list, k, n, h.live, h.core);
  }

  /** The heap after sbrk has handed out `b`, which counts as in use until it is freed. */
  ghost function Grown(h: Image, b: Blk): (r: Image) {
    h.(live := h.live[b.addr := b.size], core := h.core + [b], size := h.size[b.addr := b.size], brk := b.End())
  }

  lemma GrownOk(base: nat, h: Image, b: Blk)
    requires HeapOk(base, h) && h.brk <= b.addr && 1 <= b.size
    ensures HeapOk(base, Grown(h, b))
    ensures b.addr !in h.live && h.live[b.addr := b.size] - {b.addr} == h.live
  {
    var size' := h.size[b.addr := b.size];
    forall i: nat | i < |h.list|
      ensures NodeOk(h.list, h.ptr, size', i)
    {
      assert NodeOk(h.list, h.ptr, h.size, i);
      assert h.list[i].End() <= h.brk;
    }
    hide LiveOk, Accounted;
    FreshLive(h.list, h.live, h.size, h.brk, b.addr, b.size);
    FreshAccounted(h.list, h.live, h.core, b);
  }

  lemma EmptyHeapOk(base: nat, ptr: Words, size: Words, brk: nat)
    requires base < brk && base in ptr && ptr[base] == base && base in size && size[base] == 0
    ensures HeapOk(base, Image([Blk(base, 0)], map[], [], ptr, size, brk))
  {
  }

  /** A step of malloc's walk: block m comes `k + 1` steps after f.  Its header can be read;
      if it is not empty its predecessor on the walk is block m - 1; and the walk is back
      at f exactly after a whole round. */
  lemma WalkStep(base: nat, h: Image, f: nat, k: nat)
    requires HeapOk(base, h) && f < |h.list| && k < |h.list|
    ensures var m := Around(|h.list|, f, k + 1);
      && NodeOk(h.list, h.ptr, h.size, m)
      && (0 < h.list[m].size ==> 0 < m && Around(|h.list|, f, k) == m - 1)
      && (h.list[m].addr == h.list[f].addr <==> k + 1 == |h.list|)
      && Next(h.list, Around(|h.list|, f, k)) == m
  {
    var m := Around(|h.list|, f, k + 1);
    assert NodeOk(h.list, h.ptr, h.size, m);
    if m < f {
      assert h.list[m].End() < h.list[f].addr;
    } else if f < m {
      assert h.list[f].End() < h.list[m].addr;
    }
  }

  lemma FirstStep(base: nat, h: Image, f: nat)
    requires HeapOk(base, h) && f < |h.list|
    ensures NodeOk(h.list, h.ptr, h.size, f) && Next(h.list, f) == Around(|h.list|, f, 1)
  {
    assert NodeOk(h.list, h.ptr, h.size, f);
  }

  lemma BelowBreak(base: nat, h: Image, k: nat)
    requires HeapOk(base, h) && k < |h.list|
    ensures h.list[k].End() <= h.brk
  {
  }

  /** The memory that sbrk handed out lies within the process exactly below 2 GB. */
  lemma BackedIff(top: nat, now: nat, nunits: nat, memory: bool)
    requires top % 8 == 0 && top < KERNBASE && 1 <= nunits <= 0x2000_0000
    requires Some(now) == Growproc(top, SbrkArg(CoreUnits(nunits)), memory)
    ensures 8 * (top / 8 + CoreUnits(nunits)) <= now <==> nunits < 0x1000_0000
  {
    hide Growproc, SbrkArg;
    GrowsIff(top, CoreUnits(nunits), memory);
  }

  /** Below 2 GB the process grows by the units needed, and by 4096 units at least. */
  lemma AsksFor(top: nat, now: nat, nunits: nat, memory: bool)
    requires top % 8 == 0 && top < KERNBASE && 1 <= nunits <= 0x2000_0000
    requires Some(now) == Growproc(top, SbrkArg(CoreUnits(nunits)), memory)
    ensures nunits < 0x1000_0000 ==> now == top + 8 * if nunits < 4096 then 4096 else nunits
  {
    hide Growproc, SbrkArg;
    GrowsIff(top, CoreUnits(nunits), memory);
  }

  /** A request below 2 GB does not trap. */
  lemma NoFault(top: nat, nunits: nat, memory: bool)
    requires top % 8 == 0 && top < KERNBASE && 1 <= nunits <= 0x2000_0000
    ensures nunits < 0x1000_0000 ==> !Faults(top, CoreUnits(nunits), memory)
  {
    hide Growproc, SbrkArg;
    if Growproc(top, SbrkArg(CoreUnits(nunits)), memory).Some? {
      GrowsIff(top, CoreUnits(nunits), memory);
    }
  }

  lemma UsableIff(ap: nat, nbytes: nat, brk: nat, top: nat)
    requires nbytes < 0x1_0000_0000 && 0 < ap && ap - 1 + Units(nbytes) <= brk && top < KERNBASE
    requires 8 * brk <= top <==> Units(nbytes) < 0x1000_0000
    ensures Usable(ap, nbytes, top) <==> nbytes <= 0x7FFF_FFF0
  {
    hide Units;
    RequestFits(nbytes);
  }

  lemma FoundBlock(list: seq<Blk>, m: nat, n: nat)
    requires m < |list| && n <= list[m].size
    ensures HasBlock(list, n)
  {
  }

  /** The units from q on are the end of the first large enough block after block f, and the
      block before that one is where the next search starts. */
  ghost predicate NextFit(list: seq<Blk>, f: nat, nunits: nat, q: nat, start: nat) {
    && f < |list|
    && exists k: nat :: k < |list| && TooSmall(list, f, k, nunits) && start == list[Around(|list|, f, k)].addr
         && nunits <= list[Around(|list|, f, k + 1)].size && q + nunits == list[Around(|list|, f, k + 1)].End()
  }

  lemma ExtendedMeans(top: nat, core: seq<Blk>, nunits: nat, memory: bool, now: nat, core': seq<Blk>, brk: nat)
    requires Extended(top, core, nunits, memory, now, core', brk)
    ensures !Refuses(top, CoreUnits(nunits), memory) && !Faults(top, CoreUnits(nunits), memory)
    ensures Some(now) == Growproc(top, SbrkArg(CoreUnits(nunits)), memory)
    ensures brk == top / 8 + CoreUnits(nunits) && core' == core + [Blk(top / 8, CoreUnits(nunits))]
  {
  }

  lemma NoneSmall(list: seq<Blk>, f: nat, nunits: nat)
    requires f < |list|
    ensures TooSmall(list, f, 0, nunits)
  {
  }

  lemma OneMoreSmall(list: seq<Blk>, f: nat, k: nat, nunits: nat)
    requires f < |list| && k < |list| && TooSmall(list, f, k, nunits) && list[Around(|list|, f, k + 1)].size < nunits
    ensures TooSmall(list, f, k + 1, nunits)
  {
  }

  lemma FoundNext(list: seq<Blk>, f: nat, k: nat, nunits: nat)
    requires f < |list| && k < |list| && TooSmall(list, f, k, nunits) && nunits <= list[Around(|list|, f, k + 1)].size
    ensures NextFit(list, f, nunits, list[Around(|list|, f, k + 1)].End() - nunits, list[Around(|list|, f, k)].addr)
  {
  }

  lemma NoBlockYet(base: nat, n: nat)
    requires 1 <= n
    ensures !HasBlock([Blk(base, 0)], n) && !HasBlock([], n)
  {
  }

  /** malloc has served a request of n units: one new block in use, and new memory if sbrk
      was asked. */
  ghost predicate Served(was: Live, core0: seq<Blk>, top: nat, live: Live, core: seq<Blk>, n: nat, asked: bool,
        ap: nat) {
    && 0 < ap && ap - 1 !in was && live == was[ap - 1 := n]
    && core == core0 + if asked then [Blk(top / 8, CoreUnits(n))] else []
  }

  /** The block behind `ap` holds nbytes bytes and lies within the memory of the process. */
  predicate Usable(ap: nat, nbytes: nat, top: nat)
    requires nbytes < 0x1_0000_0000
  {
    nbytes <= 8 * (Units(nbytes) - 1) && 8 * (ap - 1 + Units(nbytes)) <= top
  }

  /** The allocator's static data, the memory it manages, and the size of the process in
      bytes.  A null freep is 0.  The ghost fields are the free list in address order with base
      first, the index of freep in it, the blocks handed out by malloc, the blocks obtained
      from sbrk, and the end of the last of these. */
  class Allocator {
    const base: nat
    var freep: nat
    var ptr: Words
    var size: Words
    var top: nat
    ghost var brk: nat
    ghost var list: seq<Blk>
    ghost var rover: nat
    ghost var live: Live
    ghost var core: seq<Blk>

    ghost function Heap(): (h: Image)
      reads this
    {
      Image(list, live, core, ptr, size, brk)
    }

    /** The list and the blocks in use are in order. */
    ghost predicate Sound()
      reads this
    {
      && 0 < base < brk
      && (freep == 0 ==> list == [] && live == map[] && core == [])
      && (freep != 0 ==>
            && HeapOk(base, Heap())
            && rover < |list| && list[rover].addr == freep)
    }

    /** And all of it lies within the memory of the process. */
    ghost predicate Valid()
      reads this
    {
      Sound() && 8 * brk <= top < KERNBASE && top % 8 == 0
    }

    constructor (base: nat, top: nat)
      requires 0 < base && 8 * base + 8 <= top < KERNBASE && top % 8 == 0
      ensures Valid() && live == map[] && core == [] && freep == 0 && list == [] && this.top == top
    {
      this.base, this.top, brk := base, top, base + 1;
      freep, ptr, size := 0, map[], map[];
      list, rover, live, core := [], 0, map[], [];
    }

    /** The search in free(): from freep round to the block that `bp` comes after. */
    method FindPlace(bp: nat) returns (p: nat, ghost i: nat)
      requires Sound() && bp in live
      ensures 0 < p && i < |list| && list[i].addr == p && Between(list, i, Blk(bp, live[bp]))
    {
      ghost var b := Blk(bp, live[bp]);
      assert LiveBlock(list, size, brk, b);
      ghost var t := HasPlace(list, b, |list|);
      p, i := freep, rover;
      assert NodeOk(list, ptr, size, i);
      StopsAtPlace(list, i, b);
      while !(bp > p && bp < ptr[p])
        invariant i < |list| && list[i].addr == p && NodeOk(list, ptr, size, i)
        invariant StopsAt(p, ptr[p], bp) <==> Between(list, i, b)
        decreases Distance(|list|, i, t)
      {
        if p >= ptr[p] && (bp > p || bp < ptr[p]) {
          break;
        }
        p := ptr[p];
        i := Next(list, i);
        assert NodeOk(list, ptr, size, i);
        StopsAtPlace(list, i, b);
      }
      BlockInHeap(base, Heap(), i);
    }

    /** The relinking in free(): join `bp` to the block above, then to `p` below. */
    method Relink(p: nat, bp: nat)
      requires bp in size && p in size && p in ptr && ptr[p] in ptr && ptr[p] in size
      requires p < bp && ptr[p] != bp
      modifies `ptr, `size
      ensures ptr == FreePtr(old(ptr), old(size), p, bp)
      ensures size == FreeSize(old(ptr), old(size), p, bp)
    {
      if bp + size[bp] == ptr[p] {
        size := size[bp := size[bp] + size[ptr[p]]];
        ptr := ptr[bp := ptr[ptr[p]]];
      } else {
        ptr := ptr[bp := ptr[p]];
      }
      if p + size[p] == bp {
        size := size[p := size[p] + size[bp]];
        ptr := ptr[p := ptr[bp]];
      } else {
        ptr := ptr[p := bp];
      }
    }

    /** free() of a block that malloc returned.  The block's units become free and nothing
        else changes hands. */
    method Free(ap: nat)
      requires Sound() && 0 < ap && ap - 1 in live
      modifies this
      ensures Sound() && freep != 0
      ensures live == old(live) - {ap - 1}
      ensures core == old(core) && brk == old(brk) && top == old(top)
      ensures HasBlock(list, old(live[ap - 1]))
      ensures freep < ap - 1 && forall i | 0 <= i < |list| :: list[i].addr <= freep || ap - 1 <= list[i].addr
    {
      hide HeapOk;
      var bp := ap - 1;
      var p, i := FindPlace(bp);
      ghost var b := Blk(bp, live[bp]);
      FreedOk(base, Heap(), i, bp);
      FreedNear(base, Heap(), i, bp);
      Relink(p, bp);
      freep := p;
      list, rover, live := Release(list, i, b), i, live - {bp};
    }

    /** morecore(): ask sbrk for at least `nunits` units.  Where sbrk says yes the units are
        taken to start at the old end of the process, and the first store goes there. */
    method Morecore(nunits: nat, memory: bool) returns (p: nat, trapped: bool)
      requires Valid() && freep != 0 && 1 <= nunits <= 0x2000_0000
      modifies this
      ensures Sound() && freep != 0 && live == old(live)
      ensures p == 0 && !trapped <==> Refuses(old(top), CoreUnits(nunits), memory)
      ensures trapped <==> Faults(old(top), CoreUnits(nunits), memory)
      ensures trapped ==> p == 0
      ensures p == 0 ==> Heap() == old(Heap()) && rover == old(rover) && freep == old(freep)
      ensures p == 0 && !trapped ==> top == old(top)
      ensures p != 0 ==>
        p == freep && HasBlock(list, nunits) && Extended(old(top), old(core), nunits, memory, top, core, brk)
      ensures top % 8 == 0 && top < KERNBASE
    {
      hide HeapOk, PageUp;
      var nu := if nunits < MIN_UNITS then MIN_UNITS else nunits;
      var grown := Growproc(top, SbrkArg(nu), memory);
      if grown.None? {
        return 0, false;
      }
      GrowsIff(top, nu, memory);
      var hp := top / 8;
      top := grown.value;
      if PageUp(top) <= 8 * hp {
        return 0, true;
      }
      GrownOk(base, Heap(), Blk(hp, nu));
      size := size[hp := nu];
      brk := hp + nu;
      live, core := live[hp := nu], core + [Blk(hp, nu)];
      Free(hp + 1);
      return freep, false;
    }

    /** The taking in malloc(): unlink `p` if it fits exactly, else cut its tail off. */
    method Carve(prevp: nat, p: nat, nunits: nat) returns (q: nat)
      requires p in ptr && p in size && nunits <= size[p]
      modifies `ptr, `size
      ensures ptr == TakePtr(old(ptr), old(size), prevp, p, nunits)
      ensures size == TakeSize(old(size), p, nunits)
      ensures q == p + old(size[p]) - nunits
    {
      q := p;
      if size[p] == nunits {
        ptr := ptr[prevp := ptr[p]];
      } else {
        size := size[p := size[p] - nunits];
        q := p + size[p];
        size := size[q := nunits];
      }
    }

    /** Free block `k` at `p`, which `prevp` precedes, gives up `nunits` units. */
    method TakeFrom(prevp: nat, p: nat, nunits: nat, ghost k: nat) returns (q: nat)
      requires Sound() && freep != 0 && 0 < k < |list| && 1 <= nunits <= list[k].size
      requires prevp == list[k - 1].addr && p == list[k].addr
      modifies this
      ensures Sound() && freep != 0
      ensures q !in old(live) && live == old(live)[q := nunits] && q + nunits == old(list)[k].End() <= brk
      ensures core == old(core) && brk == old(brk) && top == old(top) && freep == prevp
    {
      hide HeapOk;
      BelowBreak(base, Heap(), k);
      TakenOk(base, Heap(), k, nunits);
      q := Carve(prevp, p, nunits);
      freep := prevp;
      list, rover, live := Take(list, k, nunits), k - 1, live[q := nunits];
    }

    /** The first call of malloc: the list is base alone, pointing to itself. */
    method InitList()
      requires Sound() && freep == 0
      modifies this
      ensures Sound() && freep != 0 && list == [Blk(base, 0)]
      ensures live == old(live) && core == old(core) && brk == old(brk) && top == old(top)
    {
      ptr := ptr[base := base];
      size := size[base := 0];
      freep := base;
      list, rover := [Blk(base, 0)], 0;
      EmptyHeapOk(base, ptr, size, brk);
    }

    /** The loop of malloc(), next fit from freep.  `asked` tells whether sbrk was called. */
    method Search(nunits: nat, memory: bool) returns (r: Answer, asked: bool)
      requires Valid() && freep != 0 && 1 <= nunits <= 0x2000_0000
      modifies this
      ensures Sound() && freep != 0
      ensures asked <==> !HasBlock(old(list), nunits)
      ensures r == Null <==> asked && Refuses(old(top), CoreUnits(nunits), memory)
      ensures r == Trapped <==> asked && Faults(old(top), CoreUnits(nunits), memory)
      ensures !r.Block? ==> live == old(live) && core == old(core) && brk == old(brk)
      ensures r.Block? ==> Served(old(live), old(core), old(top), live, core, nunits, asked, r.ap)
      ensures !asked || r == Null ==> brk == old(brk) && top == old(top)
      ensures asked && r.Block? ==>
        && brk == old(top) / 8 + CoreUnits(nunits)
        && Some(top) == Growproc(old(top), SbrkArg(CoreUnits(nunits)), memory)
      ensures top % 8 == 0 && top < KERNBASE
      ensures r.Block? ==> r.ap - 1 + nunits <= brk
      ensures r.Block? && !asked ==> NextFit(old(list), old(rover), nunits, r.ap - 1, freep)
    {
      hide HeapOk, HasBlock, Growproc, SbrkArg, CoreUnits, Refuses, Faults, NextFit, Extended, TooSmall;
      asked := false;
      var prevp := freep;
      ghost var k: nat := 0;
      FirstStep(base, Heap(), rover);
      NoneSmall(list, rover, nunits);
      var p := ptr[prevp];
      while true
        invariant Sound() && freep != 0 && live == old(live) && top % 8 == 0 && top < KERNBASE
        invariant k < |list| && prevp == list[Around(|list|, rover, k)].addr
        invariant p == list[Around(|list|, rover, k + 1)].addr
        invariant TooSmall(list, rover, k, nunits)
        invariant !asked ==> core == old(core) && brk == old(brk) && top == old(top) && list == old(list)
        invariant !asked ==> rover == old(rover)
        invariant asked ==>
          && HasBlock(list, nunits) && !HasBlock(old(list), nunits)
          && Extended(old(top), old(core), nunits, memory, top, core, brk)
        decreases !asked, |list| - k
      {
        ghost var m := Around(|list|, rover, k + 1);
        WalkStep(base, Heap(), rover, k);
        if size[p] >= nunits {
          FoundBlock(list, m, nunits);
          FoundNext(list, rover, k, nunits);
          if asked {
            ExtendedMeans(old(top), old(core), nunits, memory, top, core, brk);
          }
          p := TakeFrom(prevp, p, nunits, m);
          return Block(p + 1), asked;
        }
        OneMoreSmall(list, rover, k, nunits);
        if p == freep {
          WholeRound(list, rover, nunits);
          var trapped;
          p, trapped := Morecore(nunits, memory);
          asked := true;
          if trapped {
            return Trapped, asked;
          }
          if p == 0 {
            return Null, asked;
          }
          k := 0;
          FirstStep(base, Heap(), rover);
          NoneSmall(list, rover, nunits);
        } else {
          k := k + 1;
          WalkStep(base, Heap(), rover, k);
        }
        prevp := p;
        p := ptr[p];
      }
    }

    /** malloc().  A block of exactly Units(nbytes) units changes hands; sbrk is called, once,
        exactly if no free block is large enough; malloc fails exactly if sbrk then refuses, and
        dies exactly if sbrk then leaves it no page to put the header in; and the caller can use
        the block it gets exactly if the request is less than 2 GB by a header and the
        rounding.  A larger one is served by an sbrk that does not grow the process. */
    method Malloc(nbytes: nat, memory: bool) returns (r: Answer, asked: bool)
      requires Valid() && nbytes < 0x1_0000_0000
      modifies this
      ensures Sound() && freep != 0
      ensures asked <==> !HasBlock(old(list), Units(nbytes))
      ensures r == Null <==> asked && Refuses(old(top), CoreUnits(Units(nbytes)), memory)
      ensures r == Trapped <==> asked && Faults(old(top), CoreUnits(Units(nbytes)), memory)
      ensures !r.Block? ==> live == old(live) && core == old(core) && (r == Null ==> Valid())
      ensures r.Block? ==> Served(old(live), old(core), old(top), live, core, Units(nbytes), asked, r.ap)
      ensures r.Block? ==>
        if asked then Some(top) == Growproc(old(top), SbrkArg(CoreUnits(Units(nbytes))), memory) else top == old(top)
      ensures r.Block? && asked && Units(nbytes) < 0x1000_0000 ==>
        top == old(top) + 8 * if Units(nbytes) < 4096 then 4096 else Units(nbytes)
      ensures r.Block? ==> (Usable(r.ap, nbytes, top) <==> nbytes <= 0x7FFF_FFF0)
      ensures r.Block? ==> (Valid() <==> Units(nbytes) < 0x1000_0000)
      ensures Units(nbytes) < 0x1000_0000 ==> r != Trapped
      ensures r.Block? && !asked ==> NextFit(old(list), old(rover), Units(nbytes), r.ap - 1, freep)
    {
      hide HeapOk, HasBlock, Growproc, SbrkArg, CoreUnits, Units, Usable, Refuses, Faults, NextFit;
      var nunits := Units(nbytes);
      if freep == 0 {
        InitList();
        NoBlockYet(base, nunits);
      }
      NoFault(top, nunits, memory);
      r, asked := Search(nunits, memory);
      if asked && r.Block? {
        BackedIff(old(top), top, nunits, memory);
        AsksFor(old(top), top, nunits, memory);
      }
      if r.Block? {
        UsableIff(r.ap, nbytes, brk, top);
      }
    }

    /** No free block is 2 GB. */
    lemma NoHugeBlock(nunits: nat)
      requires Valid() && 0x1000_0000 <= nunits
      ensures !HasBlock(list, nunits)
    {
      if freep != 0 {
        forall j | 0 <= j < |list|
          ensures list[j].size < nunits
        {
          BelowBreak(base, Heap(), j);
        }
      }
    }
  }

  /** A process of 0xC010 bytes, which is not a whole number of pages: its first request has
      taken exactly what sbrk gave. */
  method UnalignedProcess() returns (a: Allocator)
    ensures fresh(a) && a.Valid() && a.top == 0xC010
  {
    hide HasBlock, Served, Usable;
    a := new Allocator(1, 0x4000);
    NoBlockYet(1, Units(0x8008));
    assert CoreUnits(Units(0x8008)) == 0x1002 && Growproc(0x4000, SbrkArg(0x1002), true) == Some(0xC010);
    var r, asked := a.Malloc(0x8008, true);
  }

  /** Two requests that malloc answers with a pointer to memory the process does not have: for
      the first sbrk gets 0, for the second a negative number. */
  method UnbackedRequests() returns (p: Answer, top: nat, q: Answer, top': nat)
    ensures p.Block? && !Usable(p.ap, 0xFFFF_FFF8, top)
    ensures q.Block? && !Usable(q.ap, 0x8000_0000, top')
  {
    hide Usable, Served, HasBlock;
    var a := UnalignedProcess();
    a.NoHugeBlock(Units(0xFFFF_FFF8));
    assert SbrkArg(CoreUnits(Units(0xFFFF_FFF8))) == 0;
    var asked;
    p, asked := a.Malloc(0xFFFF_FFF8, true);
    top := a.top;
    var b := UnalignedProcess();
    b.NoHugeBlock(Units(0x8000_0000));
    assert SbrkArg(CoreUnits(Units(0x8000_0000))) == -0x7FFF_FFF8;
    assert Shrink(0xC010, -0x7FFF_FFF8) == 0xC010;
    q, asked := b.Malloc(0x8000_0000, true);
    top' := b.top;
  }

  /** Two requests that malloc does not survive: the first from a process that is a whole number
      of pages, as exec leaves it, the second because sbrk takes away the last page. */
  method TrappedRequests() returns (p: Answer, q: Answer)
    ensures p == Trapped && q == Trapped
  {
    hide Usable, Served, HasBlock;
    var a := new Allocator(1, 0x4000);
    a.NoHugeBlock(Units(0xFFFF_FFF8));
    assert SbrkArg(CoreUnits(Units(0xFFFF_FFF8))) == 0;
    var asked;
    p, asked := a.Malloc(0xFFFF_FFF8, true);
    var b := UnalignedProcess();
    b.NoHugeBlock(Units(0xFFFF_FFE8));
    assert SbrkArg(CoreUnits(Units(0xFFFF_FFE8))) == -0x10;
    assert Shrink(0xC010, -0x10) == 0xC000;
    q, asked := b.Malloc(0xFFFF_FFE8, true);
  }
}
