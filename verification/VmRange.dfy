/** Ranges of pages taken away from, and added to, an address space. */
module VmRange {

  import opened Optional
  import opened VmSpec

  /** What a frame holds: zeroes, the junk that kfree leaves behind, or the data of a program. */
  datatype Page = Zeroed | Junk | Program(id: nat)

  /** What the frames hold is unchanged, but for the frames of some set. */
  ghost predicate KeepsBut(was: map<nat, Page>, now: map<nat, Page>, changed: set<nat>) {
    forall f | f in was && f !in changed :: f in now && now[f] == was[f]
  }

  lemma KeptAll(data: map<nat, Page>, changed: set<nat>)
    ensures KeepsBut(data, data, changed)
  {
  }

  lemma KeptInTurn(was: map<nat, Page>, mid: map<nat, Page>, now: map<nat, Page>, a: set<nat>, b: set<nat>, c: set<nat>)
    requires KeepsBut(was, mid, a) && KeepsBut(mid, now, b) && a <= c && b <= c
    ensures KeepsBut(was, now, c)
  {
  }

  /** The number of pages an address space of sz bytes has: PGROUNDUP(sz) / PGSIZE. */
  function PagesOf(sz: nat): (n: nat)
    ensures n * 4096 - 4096 < sz <= n * 4096 || n == sz == 0
  {
    (sz + 4095) / 4096
  }

  const KERNBASE := 0x80000000

  /** The page tables of dir are those of was and those the pages from lo up to p go through. */
  ghost predicate TablesFor(was: Entries, dir: Entries, lo: nat, p: nat) {
    && |was| == |dir| == NENTRIES
    && forall d: nat | d < NENTRIES ::
         dir[d].None? <==> was[d].None? && !(lo < p && Pdx(lo) <= d && d * 1024 < p)
  }

  /** The pages from lo up to hi that are mapped hold what is wanted there. */
  ghost predicate Filled(s: Space, data: map<nat, Page>, want: seq<Page>, lo: nat, hi: nat) {
    && Shape(s) && hi <= |want|
    && forall page: nat | lo <= page < hi && page < ALLPAGES && Lookup(s, page).Some? ::
         Lookup(s, page).value in data && data[Lookup(s, page).value] == want[page]
  }

  /** Every frame of owner is still in use for the same thing. */
  ghost predicate Extends(owner: Owner, next: Owner) {
    forall f | f in owner :: f in next && next[f] == owner[f]
  }

  lemma TablesForNext(was: Entries, dir: Entries, next: Entries, lo: nat, p: nat)
    requires TablesFor(was, dir, lo, p) && lo <= p < ALLPAGES && |next| == NENTRIES
    requires next[Pdx(p)].Some? && forall d: nat | d < NENTRIES && d != Pdx(p) :: next[d] == dir[d]
    ensures TablesFor(was, next, lo, p + 1)
    ensures dir[Pdx(p)].None? <==> was[Pdx(p)].None? && (p == lo || Ptx(p) == 0)
  {
  }

  /** From s to r one page was mapped, to a frame not in use before that now holds fill. */
  ghost predicate GrownBy(s: Space, owner: Owner, r: Space, next: Owner, data: map<nat, Page>, p: nat, fill: Page)
    requires p < ALLPAGES
  {
    && Shape(s) && Shape(r) && Extends(owner, next)
    && Lookup(r, p).Some? && Lookup(r, p).value !in owner
    && Lookup(r, p).value in data && data[Lookup(r, p).value] == fill
    && (forall q: nat | q < ALLPAGES && q != p :: Lookup(r, q) == Lookup(s, q))
    && r.dir[Pdx(p)].Some? && (forall d: nat | d < NENTRIES && d != Pdx(p) :: r.dir[d] == s.dir[d])
  }

  /** The pages from lo up to p, of those up to hi, have been added to was. */
  ghost predicate Growing(was: Space, owner0: Owner, s: Space, owner: Owner, data: map<nat, Page>, want: seq<Page>,
        lo: nat, p: nat, hi: nat)
    requires lo <= p <= hi <= USERPAGES
  {
    && Grown(was, owner0, s, lo, p) && Unmapped(was, lo, hi) && Filled(s, data, want, lo, p)
    && TablesFor(was.dir, s.dir, lo, p) && |s.freelist| + Need(was.dir, lo, p) == |was.freelist|
    && Extends(owner0, owner)
  }

  lemma NotGrown(s: Space, owner: Owner, data: map<nat, Page>, want: seq<Page>, lo: nat, hi: nat)
    requires OwnedOk(s, owner) && lo <= hi <= USERPAGES && Unmapped(s, lo, hi) && |want| == hi
    ensures Growing(s, owner, s, owner, data, want, lo, lo, hi)
  {
  }

  lemma GrowingMeans(was: Space, owner0: Owner, s: Space, owner: Owner, data: map<nat, Page>, want: seq<Page>,
        lo: nat, p: nat, hi: nat)
    requires lo <= p <= hi <= USERPAGES && Growing(was, owner0, s, owner, data, want, lo, p, hi)
    ensures Grown(was, owner0, s, lo, p) && Filled(s, data, want, lo, p)
    ensures Shape(was) && Shape(s) && (p < hi ==> Lookup(s, p).None?)
    ensures |s.freelist| + Need(was.dir, lo, p) == |was.freelist| && owner0.Keys <= owner.Keys
  {
    if p < hi {
      assert Lookup(s, p) == Lookup(was, p);
    }
  }

  lemma GrowingNext(was: Space, owner0: Owner, s: Space, owner: Owner, data: map<nat, Page>, want: seq<Page>,
                    r: Space, next: Owner, data': map<nat, Page>, changed: set<nat>, lo: nat, p: nat, hi: nat)
    requires lo <= p < hi <= USERPAGES && Growing(was, owner0, s, owner, data, want, lo, p, hi) && |want| == hi
    requires OwnedOk(s, owner) && GrownBy(s, owner, r, next, data', p, want[p]) && KeepsBut(data, data', changed)
      && changed !! owner.Keys
    requires |s.freelist| == |r.freelist| + 1 + if s.dir[Pdx(p)].None? then 1 else 0
    ensures Growing(was, owner0, r, next, data', want, lo, p + 1, hi)
  {
    TablesForNext(was.dir, s.dir, r.dir, lo, p);
    forall page: nat | lo <= page < p + 1
      ensures Lookup(r, page).Some? && Lookup(r, page).value !in owner0
      ensures Lookup(r, page).value in data' && data'[Lookup(r, page).value] == want[page]
    {
      if page < p {
        assert PageOk(s, owner, page);
      }
    }
  }

  /** A round that fails leaves the growing space as it was, and shows what was missing. */
  lemma GrowingFailed(was: Space, owner0: Owner, s: Space, owner: Owner, data: map<nat, Page>, want: seq<Page>,
                      r: Space, lo: nat, p: nat, hi: nat)
    requires lo <= p < hi <= USERPAGES && Growing(was, owner0, s, owner, data, want, lo, p, hi)
    requires SameMap(s, r) && r.dir == s.dir
    requires |s.freelist| == 0 || (|s.freelist| == 1 && s.dir[Pdx(p)].None?)
    ensures Grown(was, owner0, r, lo, p) && Unmapped(was, lo, hi) && Extends(owner0, owner)
    ensures Need(was.dir, lo, hi) > |was.freelist|
    ensures |s.freelist| == 0 ==> Need(was.dir, lo, p) == |was.freelist|
    ensures |s.freelist| == 1 ==> TableDue(was.dir, lo, p) && Need(was.dir, lo, p) + 1 == |was.freelist|
  {
    NeedGrows(was.dir, lo, p + 1, hi);
    TablesForNext(was.dir, s.dir, s.dir[Pdx(p) := Some(0)], lo, p);
  }

  lemma Restored(was: Space, owner0: Owner, s: Space, owner: Owner, r: Space, rest: Owner, lo: nat, p: nat, hi: nat)
    requires lo <= p < hi <= USERPAGES && OwnedOk(was, owner0)
    requires Grown(was, owner0, s, lo, p) && Unmapped(was, lo, hi) && Extends(owner0, owner)
    requires Shrunk(s, r, lo, hi) && rest == Without(owner, lo, hi)
    ensures SameMap(was, r) && owner0.Keys <= rest.Keys
  {
    forall f | f in owner0
      ensures f in rest
    {
      assert FrameOk(was, owner0, f);
    }
  }

  /** From s to r the pages from lo up to hi, their frames and nothing else have been taken
      away, and each of these frames went to the free list once. */
  ghost predicate Taken(s: Space, owner: Owner, r: Space, rest: Owner, lo: nat, hi: nat) {
    && Shrunk(s, r, lo, hi) && rest == Without(owner, lo, hi)
    && |r.freelist| + |rest| == |s.freelist| + |owner|
  }

  /** Where nothing is mapped there is nothing to take away. */
  lemma NothingTaken(s: Space, owner: Owner, lo: nat, hi: nat)
    requires OwnedOk(s, owner) && Unmapped(s, lo, hi)
    ensures Taken(s, owner, s, owner, lo, hi)
  {
    forall f | f in owner
      ensures !Within(owner[f], lo, hi)
    {
      assert FrameOk(s, owner, f);
    }
    assert owner == Without(owner, lo, hi);
  }

  lemma NoneTaken(s: Space, owner: Owner, lo: nat, hi: nat)
    requires OwnedOk(s, owner) && hi <= lo
    ensures Taken(s, owner, s, owner, lo, hi)
  {
    NothingTaken(s, owner, lo, hi);
  }

  /** The frame to take away with one page. */
  lemma WithoutOne(s: Space, owner: Owner, page: nat)
    requires OwnedOk(s, owner) && page < USERPAGES && Lookup(s, page).Some?
    ensures Lookup(s, page).value in owner
    ensures Without(owner, page, page + 1) == owner - {Lookup(s, page).value}
  {
    var f := Lookup(s, page).value;
    assert PageOk(s, owner, page);
    forall g | g in owner
      ensures Within(owner[g], page, page + 1) <==> g == f
    {
      assert FrameOk(s, owner, g);
    }
  }

  lemma TakenInTurn(s: Space, owner: Owner, r: Space, rest: Owner, t: Space, last: Owner, lo: nat, mid: nat, hi: nat,
        end: nat)
    requires Taken(s, owner, r, rest, lo, mid) && Taken(r, rest, t, last, mid, hi) && lo <= mid < hi && mid < end
    requires hi == mid + 1 || Unmapped(r, mid, hi)
    ensures Taken(s, owner, t, last, lo, hi)
    ensures hi <= end || Unmapped(s, end, hi)
    ensures last.Keys <= rest.Keys <= owner.Keys
  {
    assert Without(Without(owner, lo, mid), mid, hi) == Without(owner, lo, hi);
    if end < hi {
      forall page: nat | end <= page < hi && page < ALLPAGES
        ensures Lookup(s, page).None?
      {
        assert Lookup(r, page) == Lookup(s, page);
      }
    }
  }

  lemma TakenEnough(s: Space, owner: Owner, r: Space, rest: Owner, lo: nat, mid: nat, hi: nat)
    requires OwnedOk(s, owner) && Taken(s, owner, r, rest, lo, hi) && lo <= mid <= hi && Unmapped(s, mid, hi)
    ensures Taken(s, owner, r, rest, lo, mid)
  {
    forall f | f in owner
      ensures Within(owner[f], lo, hi) == Within(owner[f], lo, mid)
    {
      assert FrameOk(s, owner, f);
    }
    assert Without(owner, lo, hi) == Without(owner, lo, mid);
  }

  /** The parent has the page, on a frame outside the pool of the child. */
  ghost predicate CanCopy(parent: Space, data: map<nat, Page>, pool: set<nat>, p: nat)
    requires Shape(parent) && p < USERPAGES
  {
    Lookup(parent, p).Some? && Lookup(parent, p).value in data && Lookup(parent, p).value !in pool
  }

  /** What the first n pages of the parent hold. */
  ghost function Contents(parent: Space, data: map<nat, Page>, pool: set<nat>, n: nat): (r: seq<Page>)
    requires Shape(parent) && n <= USERPAGES && forall p: nat | p < n :: CanCopy(parent, data, pool, p)
    ensures |r| == n
  {
    seq(n, p requires 0 <= p < n && CanCopy(parent, data, pool, p) => data[Lookup(parent, p).value])
  }

  /** Each of the first n pages of the child holds what the parent's page held, on a frame of its
      own. */
  ghost predicate Copied(parent: Space, was: map<nat, Page>, child: Space, now: map<nat, Page>, n: nat) {
    && Shape(parent) && Shape(child)
    && forall p: nat | p < n && p < ALLPAGES ::
         && Lookup(parent, p).Some? && Lookup(child, p).Some? && Lookup(child, p) != Lookup(parent, p)
         && Lookup(parent, p).value in was && Lookup(child, p).value in now
         && now[Lookup(child, p).value] == was[Lookup(parent, p).value]
  }

  lemma CopiedAll(parent: Space, was: map<nat, Page>, pool: set<nat>, before: Space, owner: Owner, child: Space,
        now: map<nat, Page>, owner': Owner, n: nat)
    requires Shape(parent) && n <= USERPAGES && (forall p: nat | p < n :: CanCopy(parent, was, pool, p))
    requires Grown(before, owner, child, 0, n) && Filled(child, now, Contents(parent, was, pool, n), 0, n)
    requires OwnedOk(child, owner') && owner'.Keys <= pool
    ensures Copied(parent, was, child, now, n)
  {
    forall p: nat | p < n
      ensures Lookup(parent, p).Some? && Lookup(parent, p).value in was && Lookup(parent, p).value !in pool
      ensures Lookup(child, p).Some? && Lookup(child, p).value in now && Lookup(child, p).value in pool
      ensures now[Lookup(child, p).value] == was[Lookup(parent, p).value]
    {
      assert CanCopy(parent, was, pool, p);
      assert PageOk(child, owner', p);
    }
  }

  lemma CopySource(parent: Space, data0: map<nat, Page>, data: map<nat, Page>, pool: set<nat>, n: nat, p: nat)
    requires Shape(parent) && p < n <= USERPAGES && forall q: nat | q < n :: CanCopy(parent, data0, pool, q)
    requires KeepsBut(data0, data, pool)
    ensures parent.dir[Pdx(p)].Some? && parent.dir[Pdx(p)].value in parent.tables
      && Ptx(p) < |parent.tables[parent.dir[Pdx(p)].value]|
    ensures var e := parent.tables[parent.dir[Pdx(p)].value][Ptx(p)];
            e.Some? && e.value in data && data[e.value] == Contents(parent, data0, pool, n)[p]
  {
    assert CanCopy(parent, data0, pool, p);
  }

  /** Only the page tables from index i on, and the directory, are still in use. */
  ghost predicate TablesLeft(pgdir: nat, dir: Entries, owner: Owner, i: nat) {
    && |dir| == NENTRIES && pgdir in owner && owner[pgdir] == IsDir
    && (forall d: nat | i <= d < NENTRIES && dir[d].Some? :: dir[d].value in owner && owner[dir[d].value] == IsTable(d))
    && (forall f | f in owner && f != pgdir ::
      owner[f].IsTable? && i <= owner[f].d < NENTRIES && dir[owner[f].d] == Some(f))
  }

  lemma PagesGone(s: Space, owner: Owner, r: Space, rest: Owner)
    requires OwnedOk(s, owner) && r.dir == s.dir && r.pgdir == s.pgdir && rest == Without(owner, 0, USERPAGES)
    ensures TablesLeft(r.pgdir, r.dir, rest, 0) && rest.Keys <= owner.Keys
  {
    forall d: nat | d < NENTRIES && r.dir[d].Some?
      ensures r.dir[d].value in rest && rest[r.dir[d].value] == IsTable(d)
    {
      assert TableOk(s, owner, d);
    }
    forall f | f in rest && f != r.pgdir
      ensures rest[f].IsTable? && rest[f].d < NENTRIES && r.dir[rest[f].d] == Some(f)
    {
      assert FrameOk(s, owner, f);
    }
  }

  lemma OnlyDirLeft(pgdir: nat, dir: Entries, owner: Owner)
    requires TablesLeft(pgdir, dir, owner, NENTRIES)
    ensures owner.Keys == {pgdir} && owner - {pgdir} == map[]
  {
  }

  lemma TablesNext(pgdir: nat, dir: Entries, owner: Owner, i: nat)
    requires TablesLeft(pgdir, dir, owner, i) && i < NENTRIES
    ensures |dir| == NENTRIES
    ensures dir[i].Some? ==> dir[i].value in owner && TablesLeft(pgdir, dir, owner - {dir[i].value}, i + 1)
    ensures dir[i].None? ==> TablesLeft(pgdir, dir, owner, i + 1)
  {
  }

  /** The free list has no part in the soundness of the tables. */
  lemma FreelistApart(s: Space, freelist: seq<nat>, owner: Owner)
    requires OwnedOk(s, owner)
    ensures OwnedOk(s.(freelist := freelist), owner) && SameMap(s, s.(freelist := freelist))
  {
    var r := s.(freelist := freelist);
    assert forall page: nat | page < ALLPAGES :: Lookup(r, page) == Lookup(s, page);
    forall d: nat | d < NENTRIES
      ensures TableOk(r, owner, d)
    {
      assert TableOk(s, owner, d);
    }
    forall page: nat | page < USERPAGES
      ensures PageOk(r, owner, page)
    {
      assert PageOk(s, owner, page);
    }
    forall f | f in owner
      ensures FrameOk(r, owner, f)
    {
      assert FrameOk(s, owner, f);
    }
  }
}
