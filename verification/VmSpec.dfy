/** Two-level page tables and the frames they own.  Addresses are counted in pages: the page
    of an address is address / 4096, its directory index page / 1024 and its table index
    page % 1024. */
module VmSpec {
  import opened Optional

  const NENTRIES := 1024
  const USERPAGES := 524288     // KERNBASE / PGSIZE
  const ALLPAGES := 1048576

  type Entries = seq<Option<nat>>

  function Pdx(page: nat): (d: nat)
    ensures d * 1024 <= page < d * 1024 + 1024
  {
    page / 1024
  }

  function Ptx(page: nat): (t: nat)
    ensures t == page - Pdx(page) * 1024
  {
    page % 1024
  }

  /** An address space: the frame of its directory, the directory (the frame of each page
      table), the page tables by frame, and the list of free frames. */
  datatype Space = Space(pgdir: nat, dir: Entries, tables: map<nat, Entries>, freelist: seq<nat>)

  ghost predicate Shape(s: Space) {
    && |s.dir| == NENTRIES
    && forall d | 0 <= d < NENTRIES && s.dir[d].Some? ::
      s.dir[d].value in s.tables && |s.tables[s.dir[d].value]| == NENTRIES
  }

  /** The frame a page is mapped to. */
  function Lookup(s: Space, page: nat): (f: Option<nat>)
    requires Shape(s) && page < ALLPAGES
  {
    match s.dir[Pdx(page)]
    case None => None
    case Some(t) => s.tables[t][Ptx(page)]
  }

  /** What a frame in use is for. */
  datatype Use = IsDir | IsTable(d: nat) | IsPage(page: nat)

  type Owner = map<nat, Use>

  ghost predicate TableOk(s: Space, owner: Owner, d: nat)
    requires Shape(s) && d < NENTRIES
  {
    s.dir[d].Some? ==> s.dir[d].value in owner && owner[s.dir[d].value] == IsTable(d)
  }

  ghost predicate PageOk(s: Space, owner: Owner, page: nat)
    requires Shape(s) && page < USERPAGES
  {
    Lookup(s, page).Some? ==> Lookup(s, page).value in owner && owner[Lookup(s, page).value] == IsPage(page)
  }

  ghost predicate FrameOk(s: Space, owner: Owner, f: nat)
    requires Shape(s) && f in owner
  {
    match owner[f]
    case IsDir => f == s.pgdir
    case IsTable(d) => d < NENTRIES && s.dir[d] == Some(f)
    case IsPage(page) => page < USERPAGES && Lookup(s, page) == Some(f)
  }

  /** Directory, tables and user pages each have a frame of their own. */
  ghost predicate OwnedOk(s: Space, owner: Owner) {
    && Shape(s)
    && s.pgdir in owner && owner[s.pgdir] == IsDir
    && (forall d: nat | d < NENTRIES :: TableOk(s, owner, d))
    && (forall page: nat | page < USERPAGES :: PageOk(s, owner, page))
    && (forall f | f in owner :: FrameOk(s, owner, f))
  }

  ghost predicate NoDup(l: seq<nat>) {
    forall i, j | 0 <= i < j < |l| :: l[i] != l[j]
  }

  /** The frames in use and the free list share out the pool between them. */
  ghost predicate PoolOk(freelist: seq<nat>, owner: Owner, pool: set<nat>) {
    && NoDup(freelist)
    && (forall f | f in freelist :: f !in owner)
    && (forall f :: f in pool <==> f in freelist || f in owner)
  }

  ghost predicate SpaceOk(s: Space, owner: Owner, pool: set<nat>) {
    OwnedOk(s, owner) && PoolOk(s.freelist, owner, pool)
  }

  ghost predicate SameMap(s: Space, r: Space) {
    && Shape(s) && Shape(r)
    && forall page: nat | page < ALLPAGES :: Lookup(r, page) == Lookup(s, page)
  }

  // ----- One page table more

  function AddTable(s: Space, d: nat, t: nat): (r: Space)
    requires d < |s.dir|
  {
    s.(dir := s.dir[d := Some(t)], tables := s.tables[t := seq(NENTRIES, _ => None)])
  }

  /** A new table is empty, so it changes no mapping. */
  lemma AddTableOk(s: Space, owner: Owner, d: nat, t: nat)
    requires OwnedOk(s, owner) && d < NENTRIES && s.dir[d].None? && t !in owner
    ensures OwnedOk(AddTable(s, d, t), owner[t := IsTable(d)]) && SameMap(s, AddTable(s, d, t))
  {
    var r, owner' := AddTable(s, d, t), owner[t := IsTable(d)];
    forall e: nat | e < NENTRIES
      ensures TableOk(r, owner', e) && (s.dir[e].Some? ==> r.dir[e] == s.dir[e] && r.dir[e].value != t)
    {
      assert TableOk(s, owner, e);
    }
    assert Shape(r);
    forall page: nat | page < ALLPAGES
      ensures Lookup(r, page) == Lookup(s, page)
    {
      assert TableOk(s, owner, Pdx(page));
    }
    forall page: nat | page < USERPAGES
      ensures PageOk(r, owner', page)
    {
      assert PageOk(s, owner, page);
    }
    forall f | f in owner'
      ensures FrameOk(r, owner', f)
    {
      if f != t {
        assert FrameOk(s, owner, f);
      }
    }
  }

  // ----- One page more, one page less

  function SetPte(s: Space, page: nat, e: Option<nat>): (r: Space)
    requires Shape(s) && page < ALLPAGES && s.dir[Pdx(page)].Some?
  {
    var t := s.dir[Pdx(page)].value;
    s.(tables := s.tables[t := s.tables[t][Ptx(page) := e]])
  }

  lemma SetPteLookup(s: Space, owner: Owner, page: nat, e: Option<nat>)
    requires OwnedOk(s, owner) && page < ALLPAGES && s.dir[Pdx(page)].Some?
    ensures Shape(SetPte(s, page, e))
    ensures forall q: nat | q < ALLPAGES :: Lookup(SetPte(s, page, e), q) == if q == page then e else Lookup(s, q)
  {
    var r := SetPte(s, page, e);
    forall q: nat | q < ALLPAGES
      ensures Lookup(r, q) == if q == page then e else Lookup(s, q)
    {
      assert TableOk(s, owner, Pdx(page)) && TableOk(s, owner, Pdx(q));
    }
  }

  lemma MapPageOk(s: Space, owner: Owner, page: nat, f: nat)
    requires OwnedOk(s, owner) && page < USERPAGES && s.dir[Pdx(page)].Some? && Lookup(s, page).None? && f !in owner
    ensures OwnedOk(SetPte(s, page, Some(f)), owner[f := IsPage(page)])
  {
    var r, owner' := SetPte(s, page, Some(f)), owner[f := IsPage(page)];
    SetPteLookup(s, owner, page, Some(f));
    forall d: nat | d < NENTRIES
      ensures TableOk(r, owner', d)
    {
      assert TableOk(s, owner, d);
    }
    forall q: nat | q < USERPAGES
      ensures PageOk(r, owner', q)
    {
      assert PageOk(s, owner, q);
    }
    forall g | g in owner'
      ensures FrameOk(r, owner', g)
    {
      if g != f {
        assert FrameOk(s, owner, g);
      }
    }
  }

  lemma UnmapPageOk(s: Space, owner: Owner, page: nat)
    requires OwnedOk(s, owner) && page < USERPAGES && s.dir[Pdx(page)].Some? && Lookup(s, page).Some?
    ensures Lookup(s, page).value in owner
    ensures OwnedOk(SetPte(s, page, None), owner - {Lookup(s, page).value})
  {
    var f := Lookup(s, page).value;
    assert PageOk(s, owner, page);
    var r, owner' := SetPte(s, page, None), owner - {f};
    SetPteLookup(s, owner, page, None);
    forall d: nat | d < NENTRIES
      ensures TableOk(r, owner', d)
    {
      assert TableOk(s, owner, d);
    }
    forall q: nat | q < USERPAGES
      ensures PageOk(r, owner', q)
    {
      assert PageOk(s, owner, q);
    }
    forall g | g in owner'
      ensures FrameOk(r, owner', g)
    {
      assert FrameOk(s, owner, g);
    }
  }

  // ----- The frame pool

  /** Taking the head of the free list: the frame is in neither half of the pool until it is
      put to use. */
  lemma TakeOk(freelist: seq<nat>, owner: Owner, pool: set<nat>)
    requires PoolOk(freelist, owner, pool) && freelist != []
    ensures PoolOk(freelist[1..], owner, pool - {freelist[0]}) && freelist[0] in pool && freelist[0] !in owner
  {
    forall f
      ensures f in freelist <==> f == freelist[0] || f in freelist[1..]
    {
      assert freelist == [freelist[0]] + freelist[1..];
    }
  }

  lemma GiveOk(freelist: seq<nat>, owner: Owner, pool: set<nat>, f: nat)
    requires PoolOk(freelist, owner, pool - {f}) && f in pool
    ensures PoolOk([f] + freelist, owner, pool)
  {
    var l := [f] + freelist;
    forall g
      ensures g in l <==> g == f || g in freelist
    {
    }
    assert f !in freelist by {
      assert f !in pool - {f};
    }
  }

  lemma UseOk(freelist: seq<nat>, owner: Owner, pool: set<nat>, f: nat, u: Use)
    requires PoolOk(freelist, owner, pool - {f}) && f in pool
    ensures PoolOk(freelist, owner[f := u], pool)
  {
    assert f !in pool - {f};
  }

  lemma DropOk(freelist: seq<nat>, owner: Owner, pool: set<nat>, f: nat)
    requires PoolOk(freelist, owner, pool) && f in owner
    ensures PoolOk(freelist, owner - {f}, pool - {f}) && f in pool
  {
  }

  /** So many frames are free, so many in use. */
  lemma {:induction false} PoolSize(freelist: seq<nat>, owner: Owner, pool: set<nat>)
    requires PoolOk(freelist, owner, pool)
    ensures |pool| == |freelist| + |owner|
  {
    if freelist == [] {
      assert pool == owner.Keys;
    } else {
      TakeOk(freelist, owner, pool);
      PoolSize(freelist[1..], owner, pool - {freelist[0]});
    }
  }

  /** Two user pages never share a frame, and no user page's frame is free. */
  lemma PagesDistinct(s: Space, owner: Owner, pool: set<nat>, p: nat, q: nat)
    requires SpaceOk(s, owner, pool) && p < USERPAGES && q < USERPAGES && Lookup(s, p).Some?
    ensures Lookup(s, p).value !in s.freelist && Lookup(s, p).value in pool
    ensures Lookup(s, q) == Lookup(s, p) ==> p == q
  {
    assert PageOk(s, owner, p) && PageOk(s, owner, q);
  }

  // ----- Ranges of pages

  /** The pages from lo up to hi of s have gone and no other mapping has changed. */
  ghost predicate Shrunk(s: Space, r: Space, lo: nat, hi: nat) {
    && Shape(s) && Shape(r)
    && forall page: nat | page < ALLPAGES :: Lookup(r, page) == if lo <= page < hi then None else Lookup(s, page)
  }

  /** Exactly the pages from lo up to hi are new, on frames that were not in use. */
  ghost predicate Grown(s: Space, owner: Owner, r: Space, lo: nat, hi: nat) {
    && Shape(s) && Shape(r)
    && (forall page: nat | page < ALLPAGES && !(lo <= page < hi) :: Lookup(r, page) == Lookup(s, page))
    && (forall page: nat | lo <= page < hi && page < ALLPAGES ::
      Lookup(r, page).Some? && Lookup(r, page).value !in owner)
  }

  ghost predicate Unmapped(s: Space, lo: nat, hi: nat) {
    && Shape(s)
    && forall page: nat | lo <= page < hi && page < ALLPAGES :: Lookup(s, page).None?
  }

  /** A page in lo up to hi that a frame is for. */
  predicate Within(u: Use, lo: nat, hi: nat) {
    u.IsPage? && lo <= u.page < hi
  }

  /** The frames in use without those of the pages from lo up to hi. */
  function Without(owner: Owner, lo: nat, hi: nat): (r: Owner)
  {
    map f | f in owner && !Within(owner[f], lo, hi) :: owner[f]
  }

  /** The page is the first of its table in a range from lo on, and the table is missing. */
  predicate TableDue(dir: Entries, lo: nat, page: nat)
    requires page < ALLPAGES && |dir| == NENTRIES
  {
    dir[Pdx(page)].None? && (page == lo || Ptx(page) == 0)
  }

  /** The number of frames needed to map the pages from lo up to hi: one for each page and one
      for each page table that is missing. */
  function Need(dir: Entries, lo: nat, hi: nat): (n: nat)
    requires lo <= hi <= ALLPAGES && |dir| == NENTRIES
    ensures n >= hi - lo
  {
    if lo == hi then 0
    else Need(dir, lo, hi - 1) + 1 + if TableDue(dir, lo, hi - 1) then 1 else 0
  }

  lemma {:induction false} NeedGrows(dir: Entries, lo: nat, mid: nat, hi: nat)
    requires lo <= mid <= hi <= ALLPAGES && |dir| == NENTRIES
    ensures Need(dir, lo, mid) <= Need(dir, lo, hi)
    decreases hi
  {
    if mid < hi {
      NeedGrows(dir, lo, mid, hi - 1);
    }
  }

  /** The free frames run out at a page table: there is one left for the page, none for the
      table it needs. */
  ghost predicate EndsAtTable(dir: Entries, hi: nat, free: nat)
    requires hi <= ALLPAGES && |dir| == NENTRIES
  {
    exists p: nat :: p < hi && TableDue(dir, 0, p) && Need(dir, 0, p) + 1 == free
  }

  /** Not if they suffice, nor if they run out at a page. */
  lemma EndsElsewhere(dir: Entries, mid: nat, hi: nat, free: nat)
    requires mid <= hi <= ALLPAGES && |dir| == NENTRIES
    requires Need(dir, 0, hi) <= free || Need(dir, 0, mid) == free
    ensures !EndsAtTable(dir, hi, free)
  {
    forall p: nat | p < hi && TableDue(dir, 0, p)
      ensures Need(dir, 0, p) + 1 != free
    {
      NeedGrows(dir, 0, p + 1, hi);
      if p < mid {
        NeedGrows(dir, 0, p + 1, mid);
      } else {
        NeedGrows(dir, 0, mid, p);
      }
    }
  }
}
