/** The frame allocator and the operations that build and tear down a user address space. */
module VmCode {

  import opened Optional
  import opened VmSpec
  import opened VmRange

  class Vm {
    const pgdir: nat
    var dir: Entries
    var tables: map<nat, Entries>
    var freelist: seq<nat>
    var data: map<nat, Page>
    ghost var owner: Owner
    ghost const pool: set<nat>

    ghost function S(): (s: Space)
      reads this
    {
      Space(pgdir, dir, tables, freelist)
    }

    /** The address space is sound and the pool, but for the frames in hand, is shared out. */
    ghost predicate Ok(held: set<nat>)
      reads this
    {
      OwnedOk(S(), owner) && Shared(held)
    }

    ghost predicate Shared(held: set<nat>)
      reads this
    {
      PoolOk(freelist, owner, pool - held) && held <= pool
    }

    /** A new directory without page tables, and a list of free frames. */
    constructor (pgdir: nat, frames: seq<nat>, data: map<nat, Page>)
      requires NoDup(frames) && pgdir !in frames
      ensures Ok({}) && this.pgdir == pgdir && freelist == frames && this.data == data
      ensures owner == map[pgdir := IsDir] && pool == (set f | f in frames) + {pgdir}
      ensures dir == seq(NENTRIES, _ => None)
    {
      this.pgdir := pgdir;
      dir := seq(NENTRIES, _ => None);
      tables := map[];
      freelist := frames;
      this.data := data;
      owner := map[pgdir := IsDir];
      pool := (set f | f in frames) + {pgdir};
      new;
      assert pool - {} == pool;
    }

    lemma OkMeans(held: set<nat>)
      requires Ok(held)
      ensures OwnedOk(S(), owner) && Shared(held)
    {
    }

    lemma OwnedInPool()
      requires Ok({})
      ensures owner.Keys <= pool
    {
      assert pool - {} == pool;
    }

    // ----- kalloc.c

    method Kalloc(ghost held: set<nat>) returns (f: Option<nat>)
      requires Ok(held)
      modifies `freelist
      ensures f.None? <==> old(freelist) == []
      ensures f.None? ==> freelist == old(freelist)
      ensures f.Some? ==>
        old(freelist) == [f.value] + freelist && f.value !in owner && f.value !in held && f.value in pool
      ensures Ok(if f.Some? then held + {f.value} else held)
    {
      if freelist == [] {
        return None;
      }
      TakeOk(freelist, owner, pool - held);
      assert pool - held - {freelist[0]} == pool - (held + {freelist[0]});
      ghost var was := S();
      f := Some(freelist[0]);
      freelist := freelist[1..];
      FreelistApart(was, freelist, owner);
    }

    method Kfree(f: nat, ghost held: set<nat>)
      requires Shared(held) && f in held
      modifies `freelist, `data
      ensures Shared(held - {f})
      ensures freelist == [f] + old(freelist)
      ensures data == old(data)[f := Junk]
    {
      GiveOk(freelist, owner, pool - (held - {f}), f) by {
        assert pool - (held - {f}) - {f} == pool - held;
      }
      data := data[f := Junk];
      freelist := [f] + freelist;
    }

    // ----- walkpgdir and mappages

    /** Finds the page table of a page, making one where alloc says so. */
    method Walk(page: nat, alloc: bool, ghost held: set<nat>) returns (found: bool)
      requires Ok(held) && page < ALLPAGES
      modifies this
      ensures Ok(held) && SameMap(old(S()), S()) && Extends(old(owner), owner)
      ensures found ==> dir[Pdx(page)].Some?
      ensures !found ==> dir == old(dir) && owner == old(owner) && freelist == old(freelist)
      ensures !found <==> old(dir[Pdx(page)].None?) && (alloc ==> old(freelist) == [])
      ensures forall d: nat | d < NENTRIES && d != Pdx(page) :: dir[d] == old(dir)[d]
      ensures old(dir[Pdx(page)].Some?) ==>
        freelist == old(freelist) && dir == old(dir) && owner == old(owner) && tables == old(tables)
      ensures found && old(dir[Pdx(page)].None?) ==> |freelist| + 1 == |old(freelist)|
      ensures data == old(data)
    {
      if dir[Pdx(page)].Some? {
        return true;
      }
      if !alloc {
        return false;
      }
      var f := Kalloc(held);
      if f.None? {
        return false;
      }
      ghost var was := S();
      var d := Pdx(page);
      AddTableOk(was, owner, d, f.value);
      UseOk(freelist, owner, pool - held, f.value, IsTable(d)) by {
        assert pool - held - {f.value} == pool - (held + {f.value});
      }
      dir, tables, owner := dir[d := Some(f.value)], tables[f.value := seq(NENTRIES, _ => None)],
        owner[f.value := IsTable(d)];
      assert S() == AddTable(was, d, f.value);
      FreelistApart(old(S()), freelist, old(owner));
      return true;
    }

    /** Maps one page to a frame in hand. */
    method MapPage(page: nat, f: nat, ghost held: set<nat>) returns (ok: bool)
      requires Ok(held) && f in held && page < USERPAGES && Lookup(S(), page).None?
      modifies this
      ensures !ok ==>
        Ok(held) && SameMap(old(S()), S()) && dir == old(dir) && owner == old(owner) && freelist == old(freelist)
      ensures ok ==> Ok(held - {f}) && Extends(old(owner), owner) && f !in old(owner)
      ensures ok ==>
        forall q: nat | q < ALLPAGES :: Lookup(S(), q) == if q == page then Some(f) else Lookup(old(S()), q)
      ensures ok ==> dir[Pdx(page)].Some? && forall d: nat | d < NENTRIES && d != Pdx(page) :: dir[d] == old(dir)[d]
      ensures ok ==> |old(freelist)| == |freelist| + if old(dir[Pdx(page)].None?) then 1 else 0
      ensures !ok <==> old(dir[Pdx(page)].None?) && old(freelist) == []
      ensures data == old(data)
    {
      ok := Walk(page, true, held);
      if !ok {
        return;
      }
      ghost var was := S();
      assert f !in owner by {
        assert f !in pool - held;
      }
      MapPageOk(was, owner, page, f);
      SetPteLookup(was, owner, page, Some(f));
      UseOk(freelist, owner, pool - (held - {f}), f, IsPage(page)) by {
        assert pool - (held - {f}) - {f} == pool - held;
      }
      var t := dir[Pdx(page)].value;
      tables, owner := tables[t := tables[t][Ptx(page) := Some(f)]], owner[f := IsPage(page)];
      assert S() == SetPte(was, page, Some(f));
    }

    // ----- deallocuvm

    /** Frees the frame of one page and clears its entry. */
    method UnmapPage(page: nat, ghost held: set<nat>)
      requires Ok(held) && page < USERPAGES && dir[Pdx(page)].Some? && Lookup(S(), page).Some?
      modifies `tables, `freelist, `data, `owner
      ensures Ok(held)
      ensures forall q: nat | q < ALLPAGES :: Lookup(S(), q) == if q == page then None else Lookup(old(S()), q)
      ensures var f := Lookup(old(S()), page).value;
        freelist == [f] + old(freelist) && owner == old(owner) - {f} && data == old(data)[f := Junk]
    {
      ghost var was := S();
      UnmapPageOk(was, owner, page);
      SetPteLookup(was, owner, page, None);
      var t := dir[Pdx(page)].value;
      var f := tables[t][Ptx(page)].value;
      DropOk(freelist, owner, pool - held, f);
      assert pool - held - {f} == pool - (held + {f});
      owner := owner - {f};
      Kfree(f, held + {f});
      assert held + {f} - {f} == held by {
        assert f !in held;
      }
      tables := tables[t := tables[t][Ptx(page) := None]];
      FreelistApart(SetPte(was, page, None), freelist, owner);
    }

    /** One round of the loop: frees one page, or jumps over a missing page table. */
    method DeallocStep(p: nat, ghost held: set<nat>) returns (next: nat)
      requires Ok(held) && p < USERPAGES
      modifies `tables, `freelist, `data, `owner
      ensures p < next <= USERPAGES && (next == p + 1 || Unmapped(old(S()), p, next))
      ensures Ok(held) && Taken(old(S()), old(owner), S(), owner, p, next)
      ensures KeepsBut(old(data), data, old(owner).Keys - owner.Keys)
    {
      ghost var was := S();
      if dir[Pdx(p)].None? {
        next := (Pdx(p) + 1) * 1024;
        assert Unmapped(was, p, next);
        NothingTaken(was, owner, p, next);
      } else {
        next := p + 1;
        if tables[dir[Pdx(p)].value][Ptx(p)].Some? {
          WithoutOne(was, owner, p);
          UnmapPage(p, held);
        } else {
          NothingTaken(was, owner, p, next);
        }
      }
    }

    /** Frees every mapped page from the end of newsz up to the end of oldsz, jumping over
        missing page tables. */
    method Deallocuvm(oldsz: nat, newsz: nat, ghost held: set<nat>) returns (r: nat)
      requires Ok(held) && oldsz <= KERNBASE
      modifies `tables, `freelist, `data, `owner
      ensures r == if newsz >= oldsz then oldsz else newsz
      ensures Ok(held) && Taken(old(S()), old(owner), S(), owner, PagesOf(newsz), PagesOf(oldsz))
      ensures KeepsBut(old(data), data, old(owner).Keys - owner.Keys)
    {
      hide Ok, Taken, Unmapped, KeepsBut;
      OkMeans(held);
      KeptAll(data, owner.Keys - owner.Keys);
      if newsz >= oldsz {
        NoneTaken(S(), owner, PagesOf(newsz), PagesOf(oldsz));
        return oldsz;
      }
      ghost var was, owner0 := S(), owner;
      ghost var hi := PagesOf(oldsz);
      var lo := PagesOf(newsz);
      var p := lo;
      NoneTaken(S(), owner, lo, p);
      while p * 4096 < oldsz
        invariant lo <= p <= USERPAGES && (p <= hi || Unmapped(was, hi, p))
        invariant Ok(held) && Taken(was, owner0, S(), owner, lo, p)
        invariant KeepsBut(old(data), data, old(owner).Keys - owner.Keys)
        decreases oldsz - p * 4096
      {
        ghost var s, o, d := S(), owner, data;
        var next := DeallocStep(p, held);
        TakenInTurn(was, owner0, s, o, S(), owner, lo, p, next, hi);
        KeptInTurn(old(data), d, data, owner0.Keys - o.Keys, o.Keys - owner.Keys, owner0.Keys - owner.Keys);
        p := next;
      }
      if hi < p {
        TakenEnough(was, owner0, S(), owner, lo, hi, p);
      }
      return newsz;
    }

    // ----- allocuvm

    /** Takes a frame, fills it and maps one page to it.  When there is no frame left for a
        missing page table the first frame stays in hand. */
    method AllocStep(p: nat, fill: Page) returns (ok: bool, mem: Option<nat>)
      requires Ok({}) && p < USERPAGES && Lookup(S(), p).None?
      modifies this
      ensures ok ==> Ok({}) && GrownBy(old(S()), old(owner), S(), owner, data, p, fill)
      ensures ok ==> |old(freelist)| == |freelist| + 1 + if old(dir[Pdx(p)].None?) then 1 else 0
      ensures !ok ==> SameMap(old(S()), S()) && dir == old(dir) && owner == old(owner)
      ensures !ok && mem.None? ==> Ok({}) && old(freelist) == []
      ensures !ok && mem.Some? ==> Ok({mem.value}) && |old(freelist)| == 1 && dir[Pdx(p)].None?
      ensures KeepsBut(old(data), data, pool - old(owner).Keys)
    {
      ghost var was := S();
      mem := Kalloc({});
      if mem.None? {
        return false, mem;
      }
      FreelistApart(was, freelist, owner);
      data := data[mem.value := fill];
      assert Ok({mem.value}) by {
        assert {} + {mem.value} == {mem.value};
      }
      ok := MapPage(p, mem.value, {mem.value});
      assert {mem.value} - {mem.value} == {};
    }

    /** Takes the pages already added away again, and returns a frame in hand. */
    method GiveBack(newsz: nat, oldsz: nat, mem: Option<nat>)
      requires Ok(if mem.Some? then {mem.value} else {}) && newsz <= KERNBASE
      modifies `tables, `freelist, `data, `owner
      ensures Ok({}) && Shrunk(old(S()), S(), PagesOf(oldsz), PagesOf(newsz))
      ensures owner == Without(old(owner), PagesOf(oldsz), PagesOf(newsz))
      ensures KeepsBut(old(data), data, pool - owner.Keys)
    {
      ghost var held := if mem.Some? then {mem.value} else {};
      assert owner.Keys <= pool;
      var _ := Deallocuvm(newsz, oldsz, held);
      if mem.Some? {
        ghost var s := S();
        assert mem.value !in owner by {
          assert mem.value !in pool - held;
        }
        Kfree(mem.value, held);
        FreelistApart(s, freelist, owner);
        assert held - {mem.value} == {};
      }
    }

    /** Grows the address space; gives everything back when memory runs out. */
    method Allocuvm(oldsz: nat, newsz: nat) returns (r: nat)
      requires Ok({})
      requires newsz < KERNBASE ==> Unmapped(S(), PagesOf(oldsz), PagesOf(newsz))
      modifies this
      ensures Ok({}) && KeepsBut(old(data), data, pool - old(owner).Keys)
      ensures newsz >= KERNBASE ==> r == 0 && S() == old(S())
      ensures newsz < oldsz && newsz < KERNBASE ==> r == oldsz && S() == old(S())
      ensures oldsz <= newsz < KERNBASE ==>
                var lo, hi := PagesOf(oldsz), PagesOf(newsz);
                if Need(old(dir), lo, hi) <= |old(freelist)|
                then r == newsz && Grown(old(S()), old(owner), S(), lo, hi)
                  && Filled(S(), data, seq(hi, _ => Zeroed), lo, hi)
                else r == 0 && SameMap(old(S()), S())
    {
      hide Ok, Growing, GrownBy, KeepsBut, Grown, Filled, SameMap, Unmapped, Extends, Need, OwnedOk, Shrunk, Without,
        PagesOf;
      KeptAll(data, pool - owner.Keys);
      if newsz >= KERNBASE {
        return 0;
      }
      if newsz < oldsz {
        return oldsz;
      }
      ghost var was, owner0, spare := S(), owner, pool - owner.Keys;
      ghost var hi := PagesOf(newsz);
      ghost var want := seq(hi, _ => Zeroed);
      var lo := PagesOf(oldsz);
      var p := lo;
      OkMeans({});
      NotGrown(was, owner, data, want, lo, hi);
      while p * 4096 < newsz
        invariant lo <= p <= hi <= USERPAGES && Ok({}) && Growing(was, owner0, S(), owner, data, want, lo, p, hi)
        invariant KeepsBut(old(data), data, spare)
      {
        OkMeans({});
        GrowingMeans(was, owner0, S(), owner, data, want, lo, p, hi);
        ghost var s, o, d := S(), owner, data;
        var ok, mem := AllocStep(p, Zeroed);
        KeptInTurn(old(data), d, data, spare, pool - o.Keys, spare);
        if !ok {
          GrowingFailed(was, owner0, s, o, d, want, S(), lo, p, hi);
          ghost var s', o', d' := S(), owner, data;
          GiveBack(newsz, oldsz, mem);
          Restored(was, owner0, s', o', S(), owner, lo, p, hi);
          KeptInTurn(old(data), d', data, spare, pool - owner.Keys, spare);
          return 0;
        }
        GrowingNext(was, owner0, s, o, d, want, S(), owner, data, pool - o.Keys, lo, p, hi);
        p := p + 1;
      }
      GrowingMeans(was, owner0, S(), owner, data, want, lo, p, hi);
      return newsz;
    }

    // ----- freevm

    /** Returns every frame the address space owns: its pages, its page tables, its directory. */
    method Freevm(ghost held: set<nat>)
      requires Ok(held)
      modifies `tables, `freelist, `data, `owner
      ensures owner == map[] && Shared(held)
      ensures |freelist| == old(|freelist| + |owner|)
      ensures KeepsBut(old(data), data, old(owner).Keys)
    {
      hide KeepsBut, OwnedOk, PoolOk, TablesLeft, Without;
      ghost var was, owner0 := S(), owner;
      var _ := Deallocuvm(KERNBASE, 0, held);
      PagesGone(was, owner0, S(), owner);
      ghost var d, o := data, owner;
      FreeTables(held);
      KeptInTurn(old(data), d, data, owner0.Keys - o.Keys, o.Keys, owner0.Keys);
    }

    /** Frees the page tables and then the directory. */
    method FreeTables(ghost held: set<nat>)
      requires TablesLeft(pgdir, dir, owner, 0) && Shared(held)
      modifies `freelist, `data, `owner
      ensures owner == map[] && Shared(held)
      ensures |freelist| == old(|freelist| + |owner|)
      ensures KeepsBut(old(data), data, old(owner).Keys)
    {
      hide KeepsBut, Shared, TablesLeft;
      KeptAll(data, owner.Keys);
      for i := 0 to NENTRIES
        invariant TablesLeft(pgdir, dir, owner, i) && Shared(held)
        invariant |freelist| + |owner| == old(|freelist| + |owner|)
        invariant owner.Keys <= old(owner).Keys && KeepsBut(old(data), data, old(owner).Keys)
      {
        TablesNext(pgdir, dir, owner, i);
        if dir[i].Some? {
          ghost var d := data;
          FreeOwned(dir[i].value, held);
          KeptInTurn(old(data), d, data, old(owner).Keys, {dir[i].value}, old(owner).Keys);
        }
      }
      OnlyDirLeft(pgdir, dir, owner);
      ghost var d := data;
      FreeOwned(pgdir, held);
      KeptInTurn(old(data), d, data, old(owner).Keys, {pgdir}, old(owner).Keys);
    }

    method FreeOwned(f: nat, ghost held: set<nat>)
      requires Shared(held) && f in owner
      modifies `freelist, `data, `owner
      ensures Shared(held) && owner == old(owner) - {f} && freelist == [f] + old(freelist)
      ensures KeepsBut(old(data), data, {f})
    {
      assert f !in held;
      DropOk(freelist, owner, pool - held, f);
      assert pool - held - {f} == pool - (held + {f});
      owner := owner - {f};
      Kfree(f, held + {f});
      assert held + {f} - {f} == held;
    }

    // ----- copyuvm

    /** Copies the pages of a parent below sz into this new address space.  When memory runs
        out the new space is freed again, except for a frame that was taken for a page whose
        page table could not be made: that frame is lost, exactly if the free list ends there. */
    method Copyuvm(parent: Space, sz: nat) returns (ok: bool, ghost lost: set<nat>)
      requires Ok({}) && sz <= KERNBASE && Unmapped(S(), 0, PagesOf(sz)) && Shape(parent)
      requires PagesOf(sz) <= USERPAGES && forall p: nat | p < PagesOf(sz) :: CanCopy(parent, data, pool, p)
      modifies this
      ensures ok <==> Need(old(dir), 0, PagesOf(sz)) <= |old(freelist)|
      ensures ok ==> Ok({}) && Grown(old(S()), old(owner), S(), 0, PagesOf(sz))
      ensures ok ==> Filled(S(), data, Contents(parent, old(data), pool, PagesOf(sz)), 0, PagesOf(sz))
      ensures ok ==> Copied(parent, old(data), S(), data, PagesOf(sz))
      ensures !ok ==> owner == map[] && Shared(lost) && |lost| <= 1
      ensures |old(dir)| == NENTRIES && (lost != {} <==> EndsAtTable(old(dir), PagesOf(sz), |old(freelist)|))
      ensures KeepsBut(old(data), data, pool)
    {
      hide Ok, Growing, GrownBy, KeepsBut, Grown, Filled, SameMap, Unmapped, Extends, Need, OwnedOk, Shared, PagesOf,
        CanCopy, Contents, TableDue, Copied;
      lost := {};
      KeptAll(data, pool);
      ghost var was, owner0, n := S(), owner, PagesOf(sz);
      ghost var want := Contents(parent, data, pool, n);
      var p := 0;
      OkMeans({});
      NotGrown(was, owner, data, want, 0, n);
      while p * 4096 < sz
        invariant p <= n <= USERPAGES && Ok({}) && Growing(was, owner0, S(), owner, data, want, 0, p, n)
        invariant KeepsBut(old(data), data, pool)
      {
        OkMeans({});
        OwnedInPool();
        GrowingMeans(was, owner0, S(), owner, data, want, 0, p, n);
        CopySource(parent, old(data), data, pool, n, p);
        var t := parent.dir[Pdx(p)].value;
        var f := parent.tables[t][Ptx(p)].value;
        ghost var s, o, d := S(), owner, data;
        var mem;
        ok, mem := AllocStep(p, data[f]);
        KeptInTurn(old(data), d, data, pool, pool - o.Keys, pool);
        if !ok {
          GrowingFailed(was, owner0, s, o, d, want, S(), 0, p, n);
          lost := if mem.Some? then {mem.value} else {};
          if mem.None? {
            EndsElsewhere(was.dir, p, n, |was.freelist|);
          }
          ghost var d', o' := data, owner;
          Freevm(lost);
          KeptInTurn(old(data), d', data, pool, o'.Keys, pool);
          return;
        }
        GrowingNext(was, owner0, s, o, d, want, S(), owner, data, pool - o.Keys, 0, p, n);
        p := p + 1;
      }
      GrowingMeans(was, owner0, S(), owner, data, want, 0, p, n);
      EndsElsewhere(was.dir, n, n, |was.freelist|);
      OkMeans({});
      OwnedInPool();
      CopiedAll(parent, old(data), pool, was, owner0, S(), data, owner, n);
      return true, {};
    }
  }

  lemma OneFrameEndsAtTable(dir: Entries)
    requires dir == seq(NENTRIES, _ => None)
    ensures EndsAtTable(dir, 1, 1) && Need(dir, 0, 1) == 2
  {
    assert TableDue(dir, 0, 0) && Need(dir, 0, 0) == 0;
  }

  /** A parent with one page, on frame 12. */
  function LoneParent(): (s: Space) {
    var none: Entries := seq(NENTRIES, _ => None);
    Space(10, none[0 := Some(11)], map[11 := none[0 := Some(12)]], [])
  }

  lemma LoneParentHasPage(data: map<nat, Page>, pool: set<nat>)
    requires 12 in data && 12 !in pool
    ensures Shape(LoneParent()) && PagesOf(4096) == 1
    ensures forall p: nat | p < PagesOf(4096) :: CanCopy(LoneParent(), data, pool, p)
  {
    assert CanCopy(LoneParent(), data, pool, 0);
  }

  lemma NoTablesNoPages(s: Space, n: nat)
    requires s.dir == seq(NENTRIES, _ => None)
    ensures Unmapped(s, 0, n)
  {
  }

  /** A parent with one page and a child with one free frame besides its directory: the copy
      fails, and of the child's two frames only one is free again. */
  method CopyCanLoseFrame() returns (ok: bool, frames: seq<nat>)
    ensures !ok && |frames| == 1
  {
    hide OwnedOk, PoolOk, Grown, Filled, Contents, Need, EndsAtTable, LoneParent, Unmapped, CanCopy, Shape, KeepsBut,
      PagesOf;
    var child := new Vm(1, [2], map[12 := Program(0)]);
    LoneParentHasPage(child.data, child.pool);
    NoTablesNoPages(child.S(), 1);
    OneFrameEndsAtTable(child.dir);
    PoolSize(child.freelist, child.owner, child.pool - {});
    ghost var lost;
    ok, lost := child.Copyuvm(LoneParent(), 4096);
    frames := child.freelist;
    PoolSize(child.freelist, child.owner, child.pool - lost);
  }
}
