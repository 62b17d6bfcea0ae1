/** Each operation on names keeps the tree sound: links equal names, before and after. */
module LinkSteps {

  import opened Optional
  import opened DirSpec
  import opened LinkSpec
  import opened LinkOps

  /** Everything a directory in use names has links left. */
  ghost predicate AllLinked(t: Tree) {
    forall d: nat, k: nat | LiveDir(t, d) && k < |t[d].entries| && t[d].entries[k].inum != 0 ::
      t[d].entries[k].inum in t && t[t[d].entries[k].inum].nlink > 0
  }

  lemma TreeIsLinked(t: Tree)
    requires TreeOk(t)
    ensures AllLinked(t)
  {
    hide ShapeOk, CountOk;
    forall d: nat, k: nat | LiveDir(t, d) && k < |t[d].entries| && t[d].entries[k].inum != 0
      ensures t[d].entries[k].inum in t && t[t[d].entries[k].inum].nlink > 0
    {
      NamedIsLinked(t, d, k);
    }
  }

  /** A file with one link more, one of which is still owed a name. */
  lemma Promise(t: Tree, i: nat, r: Tree)
    requires i in t && !t[i].dir && r == WithCount(t, i, t[i].nlink + 1)
    requires TreeOk(t)
    ensures ShapeOk(r) && CountOk(r, map[i := -1]) && AllLinked(r)
  {
    hide ShapeOk, CountOk;
    TreeIsLinked(t);
    ShapeCount(t, i, t[i].nlink + 1);
    CountChange(t, map[], i, t[i].nlink + 1);
    SameDebt(r, map[][i := Owed(map[], i) + t[i].nlink - (t[i].nlink + 1)], map[i := -1]);
  }

  /** The link is taken back when there is no name for it. */
  lemma TakeBack(t: Tree, i: nat, r: Tree)
    requires i in t && !t[i].dir && r == WithCount(t, i, t[i].nlink + 1)
    ensures WithCount(r, i, r[i].nlink - 1) == t
  {
  }

  /** The name that was owed. */
  lemma LinkKeeps(t: Tree, d: nat, e: Dirent)
    requires e.inum in t && !t[e.inum].dir && LiveDir(t, d) && e.inum != 0 && ValueOf(t[d].entries, Key(e.name)).None?
    requires ShapeOk(t) && CountOk(t, map[e.inum := -1])
    ensures TreeOk(WithEntries(t, d, Put(t[d].entries, FreeFrom(t[d].entries, 0), e)))
  {
    hide CountOk, ValueOf, FreeFrom, Put, Key;
    FreeSlot(t, d);
    ShapeLink(t, d, e);
    EntryAdded(t, map[e.inum := -1], d, FreeFrom(t[d].entries, 0), e);
    SameDebt(WithEntries(t, d, Put(t[d].entries, FreeFrom(t[d].entries, 0), e)),
      map[e.inum := -1][e.inum := Owed(map[e.inum := -1], e.inum) + 1], map[]);
  }

  /** A file loses a name and a link. */
  lemma UnlinkFileKeeps(t: Tree, d: nat, k: nat, name: string)
    requires TreeOk(t) && LiveDir(t, d) && 2 <= k < |t[d].entries| && t[d].entries[k].inum in t
      && !t[t[d].entries[k].inum].dir
    ensures var i := t[d].entries[k].inum;
            && t[i].nlink > 0
            && TreeOk(WithCount(WithEntries(t, d, t[d].entries[k := Dirent(0, name)]), i, t[i].nlink - 1))
  {
    hide ShapeOk, CountOk, Key;
    var i := t[d].entries[k].inum;
    NotZero(t, i);
    NamedIsLinked(t, d, k);
    EntryNames(t, d, k);
    var r := WithEntries(t, d, t[d].entries[k := Dirent(0, name)]);
    ShapeUnlink(t, d, k, name);
    EntryCleared(t, map[], d, k, name);
    ShapeCount(r, i, t[i].nlink - 1);
    var debt: Debt := map[][i := Owed(map[], i) - 1];
    CountChange(r, debt, i, t[i].nlink - 1);
    SameDebt(WithCount(r, i, t[i].nlink - 1), debt[i := Owed(debt, i) + t[i].nlink - (t[i].nlink - 1)], map[]);
  }

  lemma NotZero(t: Tree, i: nat)
    requires ShapeOk(t) && i in t
    ensures i != 0 && 0 !in t
  {
  }

  /** An empty directory loses its name and its link, and its parent the link from it. */
  lemma RemoveDirKeeps(t: Tree, d: nat, k: nat, name: string)
    requires TreeOk(t) && LiveDir(t, d) && 2 <= k < |t[d].entries| && t[d].entries[k].inum in t
      && t[t[d].entries[k].inum].dir
    requires var c := t[d].entries[k].inum; forall l | 2 <= l < |t[c].entries| :: t[c].entries[l].inum == 0
    ensures var c := t[d].entries[k].inum;
            && c != d && t[c].nlink == 1 && t[d].nlink >= 2
            && TreeOk(Removed(t, d, k, name, t[d].nlink - 1))
  {
    hide ShapeOk, CountOk, Key, EntryOk;
    var c := t[d].entries[k].inum;
    NotZero(t, c);
    EntryNames(t, d, k);
    DirIsLive(t, d, k);
    EmptyDir(t, d, k);
    DotsOf(t, c);
    ParentHasTwo(t, d, c);
    OneName(t, d, k);
    ShapeRemoved(t, d, k, name, t[d].nlink - 1);
    RemoveDirCounts(t, d, k, name);
  }

  lemma DirIsLive(t: Tree, d: nat, k: nat)
    requires ShapeOk(t) && LiveDir(t, d) && 2 <= k < |t[d].entries| && t[d].entries[k].inum in t
      && t[t[d].entries[k].inum].dir
    ensures LiveDir(t, t[d].entries[k].inum)
  {
    hide Key;
    assert DirOk(t, d) && EntryOk(t, d, k);
  }

  lemma DotsOf(t: Tree, c: nat)
    requires ShapeOk(t) && LiveDir(t, c)
    ensures |t[c].entries| >= 2 && Key(t[c].entries[0].name) == "." && Key(t[c].entries[1].name) == ".."
  {
    hide Key;
    assert DirOk(t, c);
  }

  /** An empty directory has just the link that its name is. */
  lemma OneName(t: Tree, d: nat, k: nat)
    requires TreeOk(t) && LiveDir(t, d) && 2 <= k < |t[d].entries| && LiveDir(t, t[d].entries[k].inum)
    requires var c := t[d].entries[k].inum; forall l | 2 <= l < |t[c].entries| :: t[c].entries[l].inum == 0
    ensures t[t[d].entries[k].inum].nlink == 1
  {
    hide Key, ShapeOk, Counts;
    var c := t[d].entries[k].inum;
    NotZero(t, c);
    EmptyDir(t, d, k);
    CountsRef(t, d, k, c);
    forall p | p in Refs(t, c)
      ensures p == (d, k)
    {
      assert p == (p.0, p.1);
      assert Counts(t, p.0, p.1, c);
      OnlyName(t, c, d, k, p.0, p.1);
    }
    assert Refs(t, c) == {(d, k)};
  }

  lemma OnlyName(t: Tree, c: nat, d: nat, k: nat, x: nat, l: nat)
    requires ShapeOk(t) && Counts(t, x, l, c) && c != 0
    requires forall y | LiveDir(t, y) && |t[y].entries| >= 2 :: t[y].entries[1].inum != c
    requires forall y: nat, m: nat | LiveDir(t, y) && 2 <= m < |t[y].entries| && t[y].entries[m].inum == c ::
      y == d && m == k
    ensures x == d && l == k
  {
    hide Key, ShapeOk;
    EntryNames(t, x, l);
  }

  lemma RemoveDirCounts(t: Tree, d: nat, k: nat, name: string)
    requires LiveDir(t, d) && t[d].nlink >= 2 && 2 <= k < |t[d].entries| && 0 !in t && Key(t[d].entries[k].name) != "."
    requires var c := t[d].entries[k].inum;
      c != d && LiveDir(t, c) && t[c].nlink == 1 && OnlyDots(t[c].entries) && t[c].entries[1].inum == d
    requires CountOk(t, map[])
    ensures CountOk(Removed(t, d, k, name, t[d].nlink - 1), map[])
  {
    hide CountOk, Key, OnlyDots;
    var c := t[d].entries[k].inum;
    var r1 := WithEntries(t, d, t[d].entries[k := Dirent(0, name)]);
    EntryCleared(t, map[], d, k, name);
    var debt1: Debt := map[][c := Owed(map[], c) - 1];
    var r2 := WithCount(r1, d, t[d].nlink - 1);
    CountChange(r1, debt1, d, t[d].nlink - 1);
    var debt2: Debt := debt1[d := Owed(debt1, d) + t[d].nlink - (t[d].nlink - 1)];
    var debt3: Debt := debt2[d := Owed(debt2, d) - 1][c := Owed(debt2, c) + 1];
    KilledCount(r2, debt2, c, d, debt3);
    SameDebt(WithCount(r2, c, 0), debt3, map[]);
    assert WithCount(r2, c, 0) == Removed(t, d, k, name, t[d].nlink - 1);
  }

  /** A new file or device under a new name. */
  lemma CreateFileKeeps(t: Tree, d: nat, e: Dirent, dev: bool)
    requires TreeOk(t) && LiveDir(t, d) && e.inum !in t && e.inum != 0 && ValueOf(t[d].entries, Key(e.name)).None?
    ensures TreeOk(WithEntries(t[e.inum := Inode(false, 1, [], dev)], d,
      Put(t[d].entries, FreeFrom(t[d].entries, 0), e)))
  {
    hide ShapeOk, CountOk, Key, ValueOf, Put, FreeFrom, Unnamed;
    var r := t[e.inum := Inode(false, 1, [], dev)];
    NewUnnamed(t, e.inum);
    ShapeNewFile(t, e.inum, dev);
    NewFileCount(t, map[], e.inum, dev);
    SameDebt(r, map[][e.inum := -1], map[e.inum := -1]);
    LinkKeeps(r, d, e);
  }

  lemma NewUnnamed(t: Tree, i: nat)
    requires ShapeOk(t) && i !in t && i != 0
    ensures Unnamed(t, i)
  {
    hide Counts, ShapeOk;
    forall f: nat, l: nat
      ensures !Counts(t, f, l, i)
    {
      NotNamed(t, i, f, l);
    }
  }

  /** A new directory under a new name. */
  lemma CreateDirKeeps(t: Tree, d: nat, e: Dirent, dots: seq<Dirent>)
    requires TreeOk(t) && LiveDir(t, d) && e.inum !in t && e.inum != 0 && ValueOf(t[d].entries, Key(e.name)).None?
    requires AreDots(dots, e.inum, d)
    ensures FreeFrom(t[d].entries, 0) <= |t[d].entries|
    ensures TreeOk(WithDir(t, d, FreeFrom(t[d].entries, 0), e, dots, t[d].nlink + 1))
  {
    hide ShapeOk, CountOk, Key, ValueOf, Put, FreeFrom, Unnamed, AreDots;
    NotZero(t, d);
    FreeSlot(t, d);
    NameIsNew(t, d, Key(e.name));
    ShapeNewDir(t, d, e, dots, t[d].nlink + 1);
    NewUnnamed(t, e.inum);
    CreateDirCounts(t, d, FreeFrom(t[d].entries, 0), e, dots);
  }

  lemma NameIsNew(t: Tree, d: nat, key: string)
    requires ShapeOk(t) && LiveDir(t, d) && ValueOf(t[d].entries, key).None?
    ensures key != "."
  {
    FreeSlot(t, d);
  }

  lemma CreateDirCounts(t: Tree, d: nat, k: nat, e: Dirent, dots: seq<Dirent>)
    requires LiveDir(t, d) && 0 !in t && e.inum !in t && e.inum != 0 && AreDots(dots, e.inum, d) && Key(e.name) != "."
    requires k <= |t[d].entries| && (k < |t[d].entries| ==> t[d].entries[k].inum == 0)
    requires Unnamed(t, e.inum) && CountOk(t, map[])
    ensures CountOk(WithDir(t, d, k, e, dots, t[d].nlink + 1), map[])
  {
    hide CountOk, Key, Put, Unnamed, AreDots;
    var i := e.inum;
    var r1 := WithCount(t, d, t[d].nlink + 1);
    CountChange(t, map[], d, t[d].nlink + 1);
    var debt1: Debt := map[][d := Owed(map[], d) + t[d].nlink - (t[d].nlink + 1)];
    StillUnnamed(t, d, t[d].nlink + 1, i);
    var r2 := r1[i := Inode(true, 1, dots, false)];
    var debt2: Debt := debt1[d := Owed(debt1, d) + 1][i := -1];
    NewDirCount(r1, debt1, i, d, dots, debt2);
    EntryAdded(r2, debt2, d, k, e);
    var r3 := WithEntries(r2, d, Put(r2[d].entries, k, e));
    SameDebt(r3, debt2[i := Owed(debt2, i) + 1], map[]);
    assert r3 == WithDir(t, d, k, e, dots, t[d].nlink + 1);
  }

  lemma StillUnnamed(t: Tree, d: nat, n: nat, i: nat)
    requires Unnamed(t, i) && LiveDir(t, d)
    ensures Unnamed(WithCount(t, d, n), i)
  {
    hide Key;
    forall f: nat, l: nat
      ensures !Counts(WithCount(t, d, n), f, l, i)
    {
      assert !Counts(t, f, l, i);
    }
  }

  /** An inode without links is freed. */
  lemma FreeKeeps(t: Tree, i: nat)
    requires TreeOk(t) && i in t && t[i].nlink == 0
    ensures TreeOk(t - {i})
  {
    hide Key, Unique, NamesOnce, HasName, EntryOk, CountOk;
    TreeIsLinked(t);
    var r := t - {i};
    assert forall j: nat | j != i :: Carries(t, r, j);
    forall x | LiveDir(r, x)
      ensures DirOk(r, x)
    {
      FreedDir(t, i, x);
    }
    FreedCounts(t, i);
  }

  lemma FreedDir(t: Tree, i: nat, x: nat)
    requires ShapeOk(t) && AllLinked(t) && i in t && t[i].nlink == 0 && x != i && LiveDir(t, x)
    ensures DirOk(t - {i}, x)
  {
    hide Key, Unique;
    var r := t - {i};
    assert DirOk(t, x);
    forall l: nat | 2 <= l < |r[x].entries|
      ensures EntryOk(r, x, l)
    {
      assert EntryOk(t, x, l);
    }
    if x != ROOT {
      var p := t[x].entries[1].inum;
      var l :| 2 <= l < |t[p].entries| && t[p].entries[l].inum == x;
      assert r[p].entries[l].inum == x;
    }
  }

  lemma FreedCounts(t: Tree, i: nat)
    requires CountOk(t, map[]) && i in t && t[i].nlink == 0
    ensures CountOk(t - {i}, map[])
  {
    hide Key, Refs;
    var r := t - {i};
    forall j | j in r
      ensures Refs(r, j) == Refs(t, j)
    {
      SameRefs(t, r, j);
    }
  }

  /** The tree mkfs starts from: a root that is its own parent. */
  lemma RootTree(dots: seq<Dirent>)
    requires AreDots(dots, ROOT, ROOT)
    ensures TreeOk(map[ROOT := Inode(true, 1, dots, false)])
  {
    hide Key;
    var t: Tree := map[ROOT := Inode(true, 1, dots, false)];
    DotsDiffer(dots, ROOT, ROOT);
    assert DirOk(t, ROOT);
    forall p: (nat, nat)
      ensures p in Refs(t, ROOT) <==> p == (ROOT, 1)
    {
      assert p == (p.0, p.1);
    }
    assert Refs(t, ROOT) == {(ROOT, 1)};
  }
}
