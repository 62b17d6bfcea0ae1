/** What creating, linking, unlinking and freeing do to a sound tree. */
module LinkOps {

  import opened Optional
  import opened DirSpec
  import opened LinkSpec

  // ----- Consequences of a sound tree

  lemma EntryNames(t: Tree, d: nat, k: nat)
    requires ShapeOk(t) && LiveDir(t, d) && k < |t[d].entries| && t[d].entries[k].inum != 0
    ensures t[d].entries[k].inum in t
    ensures k < 2 ==> LiveDir(t, t[d].entries[k].inum)
    ensures Key(t[d].entries[k].name) == "." <==> k == 0
    ensures Key(t[d].entries[k].name) == ".." <==> k == 1
    ensures k >= 2 ==> EntryOk(t, d, k)
  {
    hide Key;
    assert DirOk(t, d);
    if k >= 2 {
      assert EntryOk(t, d, k);
    }
  }

  /** The free slot lies after the entries of the directory itself and its parent. */
  lemma FreeSlot(t: Tree, d: nat)
    requires ShapeOk(t) && LiveDir(t, d)
    ensures 2 <= FreeFrom(t[d].entries, 0) <= |t[d].entries| && Unique(t[d].entries)
    ensures ValueOf(t[d].entries, ".").Some?
  {
    assert DirOk(t, d);
    var es := t[d].entries;
    assert es[0].inum in t && es[1].inum in t;
    assert Matches(es[0], ".");
  }

  /** What an entry of a directory in use names has links left, so putting it back frees nothing. */
  lemma NamedIsLinked(t: Tree, d: nat, k: nat)
    requires TreeOk(t) && LiveDir(t, d) && k < |t[d].entries| && t[d].entries[k].inum != 0
    ensures t[d].entries[k].inum in t && t[t[d].entries[k].inum].nlink > 0
  {
    EntryNames(t, d, k);
    var i := t[d].entries[k].inum;
    if k >= 2 {
      assert Counts(t, d, k, i);
      assert (d, k) in Refs(t, i);
      assert |Refs(t, i)| > 0;
    }
  }

  // ----- Shape

  /** From t to r at most the entries of d after the first two have changed. */
  ghost predicate OnlyIn(t: Tree, r: Tree, d: nat) {
    && (forall i: nat :: i in t <==> i in r)
    && (forall i | i in t :: t[i].dir == r[i].dir && (t[i].dir ==> (t[i].nlink > 0 <==> r[i].nlink > 0)))
    && (forall i | i in t && i != d :: r[i].entries == t[i].entries)
    && (d in t ==> |r[d].entries| >= 2 && |t[d].entries| >= 2 && r[d].entries[..2] == t[d].entries[..2])
  }

  /** The other directories are as before, as long as none of them lost its name. */
  lemma KeepDir(t: Tree, r: Tree, d: nat, c: nat)
    requires OnlyIn(t, r, d) && c in t && LiveDir(t, c) && DirOk(t, c) && c != d && HasName(r, c)
    ensures DirOk(r, c)
  {
    hide Key, Unique, HasName;
    forall k: nat | 2 <= k < |r[c].entries|
      ensures EntryOk(r, c, k)
    {
      assert EntryOk(t, c, k);
      HeadsSame(t, r, d, t[c].entries[k].inum);
    }
  }

  lemma HeadsSame(t: Tree, r: Tree, d: nat, i: nat)
    requires OnlyIn(t, r, d)
    ensures i in t && |t[i].entries| >= 2 ==>
      i in r && |r[i].entries| >= 2 && r[i].entries[0] == t[i].entries[0] && r[i].entries[1] == t[i].entries[1]
    ensures LiveDir(t, i) <==> LiveDir(r, i)
  {
    if i in t && i == d {
      assert r[d].entries[..2][0] == t[d].entries[..2][0];
      assert r[d].entries[..2][1] == t[d].entries[..2][1];
    }
  }

  lemma KeepShape(t: Tree, r: Tree, d: nat)
    requires ShapeOk(t) && OnlyIn(t, r, d) && LiveDir(t, d) && DirOk(r, d)
    requires forall c | LiveDir(t, c) :: HasName(r, c)
    ensures ShapeOk(r)
  {
    hide DirShape, NamesOnce, EntryOk, HasName;
    HeadsSame(t, r, d, ROOT);
    forall c | LiveDir(r, c)
      ensures DirOk(r, c)
    {
      HeadsSame(t, r, d, c);
      if c != d {
        KeepDir(t, r, d, c);
      }
    }
  }

  /** A directory that was named still is, when only entry k of d changed and did not name it. */
  lemma StillNamed(t: Tree, r: Tree, c: nat, d: nat, k: nat)
    requires OnlyIn(t, r, d) && c in t && HasName(t, c) && d in t
    requires |r[d].entries| >= |t[d].entries| && forall l | 0 <= l < |t[d].entries| && l != k ::
      r[d].entries[l] == t[d].entries[l]
    requires 2 <= k < |t[d].entries| ==> t[d].entries[k].inum != c
    ensures HasName(r, c)
  {
    if c != ROOT {
      HeadsSame(t, r, d, c);
      var p := t[c].entries[1].inum;
      var l :| 2 <= l < |t[p].entries| && t[p].entries[l].inum == c;
      assert r[p].entries[l].inum == c;
    }
  }

  /** Only the count of an inode changes, and not whether it is a directory in use. */
  lemma ShapeCount(t: Tree, i: nat, n: nat)
    requires ShapeOk(t) && i in t && (t[i].dir ==> (n > 0 <==> t[i].nlink > 0))
    ensures ShapeOk(WithCount(t, i, n))
  {
    hide Key, Unique;
    var r := WithCount(t, i, n);
    forall d | LiveDir(r, d)
      ensures DirOk(r, d)
    {
      assert LiveDir(t, d) && DirOk(t, d);
      assert NamesOnce(r, d);
      forall k: nat | 2 <= k < |r[d].entries|
        ensures EntryOk(r, d, k)
      {
        assert EntryOk(t, d, k);
      }
      assert HasName(r, d);
    }
  }

  /** The directory itself, once an entry after the first two names a file or nothing. */
  lemma ChangedDir(t: Tree, r: Tree, d: nat, k: nat)
    requires OnlyIn(t, r, d) && LiveDir(t, d) && DirOk(t, d) && Unique(r[d].entries) && HasName(r, d)
    requires 2 <= k < |r[d].entries| && forall l | 2 <= l < |r[d].entries| && l != k ::
      l < |t[d].entries| && r[d].entries[l] == t[d].entries[l]
    requires var i := r[d].entries[k].inum; i != 0 ==> i in r && !r[i].dir && i != ROOT
    requires 0 !in t
    ensures DirOk(r, d)
  {
    hide Key, Unique, HasName;
    HeadsSame(t, r, d, d);
    HeadsSame(t, r, d, t[d].entries[1].inum);
    forall l: nat | 2 <= l < |r[d].entries|
      ensures EntryOk(r, d, l)
    {
      if l != k {
        var e := r[d].entries[l];
        assert e == t[d].entries[l] && EntryOk(t, d, l);
        HeadsSame(t, r, d, t[d].entries[l].inum);
      }
    }
    assert NamesOnce(r, d);
  }

  /** A new name for a file. */
  lemma ShapeLink(t: Tree, d: nat, e: Dirent)
    requires ShapeOk(t) && LiveDir(t, d) && e.inum in t && !t[e.inum].dir
    requires ValueOf(t[d].entries, Key(e.name)).None?
    ensures ShapeOk(WithEntries(t, d, Put(t[d].entries, FreeFrom(t[d].entries, 0), e)))
  {
    hide Key, FreeFrom, Put, ValueOf, HasName, Unique, DirShape, NamesOnce, EntryOk;
    FreeSlot(t, d);
    LinkIsUpdate(t[d].entries, e, "");
    var k := FreeFrom(t[d].entries, 0);
    var r := WithEntries(t, d, Put(t[d].entries, k, e));
    assert DirOk(t, d);
    forall c | LiveDir(t, c)
      ensures HasName(r, c)
    {
      assert DirOk(t, c);
      LiveNotZero(t, c);
      StillNamed(t, r, c, d, k);
    }
    ChangedDir(t, r, d, k);
    KeepShape(t, r, d);
  }

  lemma LiveNotZero(t: Tree, c: nat)
    requires 0 !in t && LiveDir(t, c)
    ensures c != 0
  {
  }

  /** A name less for a file. */
  lemma ShapeUnlink(t: Tree, d: nat, k: nat, name: string)
    requires ShapeOk(t) && LiveDir(t, d) && 2 <= k < |t[d].entries| && t[d].entries[k].inum in t
      && !t[t[d].entries[k].inum].dir
    ensures ShapeOk(WithEntries(t, d, t[d].entries[k := Dirent(0, name)]))
  {
    hide Key, HasName, Unique, DirShape, NamesOnce, EntryOk, ValueOf;
    FreeSlot(t, d);
    ClearIsRemoval(t[d].entries, k, name, "");
    var r := WithEntries(t, d, t[d].entries[k := Dirent(0, name)]);
    assert DirOk(t, d);
    forall c | LiveDir(t, c)
      ensures HasName(r, c)
    {
      assert DirOk(t, c);
      StillNamed(t, r, c, d, k);
    }
    ChangedDir(t, r, d, k);
    KeepShape(t, r, d);
  }

  // ----- Directories that come and go

  /** An inode of t is carried over to r: what it is, its parent, and its being in use. */
  ghost predicate Carries(t: Tree, r: Tree, i: nat) {
    i in t ==>
      && i in r && r[i].dir == t[i].dir && (LiveDir(t, i) ==> LiveDir(r, i))
      && (|t[i].entries| >= 2 ==>
        |r[i].entries| >= 2 && r[i].entries[0] == t[i].entries[0] && r[i].entries[1] == t[i].entries[1])
  }

  /** Entry l of x is the one it was and what it names is carried over. */
  ghost predicate SameEntry(t: Tree, r: Tree, x: nat, l: nat)
    requires x in t && x in r && l < |r[x].entries|
  {
    l < |t[x].entries| && r[x].entries[l] == t[x].entries[l] && Carries(t, r, r[x].entries[l].inum)
  }

  lemma FramedDir(t: Tree, r: Tree, x: nat)
    requires LiveDir(t, x) && DirOk(t, x) && LiveDir(r, x) && Carries(t, r, x) && Unique(r[x].entries) && HasName(r, x)
    requires Carries(t, r, t[x].entries[1].inum) && NamesOnce(r, x)
    requires forall l: nat | 2 <= l < |r[x].entries| :: SameEntry(t, r, x, l) || EntryOk(r, x, l)
    ensures DirOk(r, x)
  {
    hide Key, Unique, HasName, NamesOnce;
    forall l: nat | 2 <= l < |r[x].entries|
      ensures EntryOk(r, x, l)
    {
      if SameEntry(t, r, x, l) {
        assert EntryOk(t, x, l);
      }
    }
  }

  /** A directory named by entry k of d, with nothing in it, has no other entry naming it. */
  lemma EmptyDir(t: Tree, d: nat, k: nat)
    requires ShapeOk(t) && LiveDir(t, d) && 2 <= k < |t[d].entries| && LiveDir(t, t[d].entries[k].inum)
    requires var c := t[d].entries[k].inum; forall l | 2 <= l < |t[c].entries| :: t[c].entries[l].inum == 0
    ensures var c := t[d].entries[k].inum;
            && c != d && c != ROOT && t[c].entries[1].inum == d
            && (forall x | LiveDir(t, x) :: t[x].entries[1].inum != c)
            && (forall x: nat, l: nat | LiveDir(t, x) && 2 <= l < |t[x].entries| && t[x].entries[l].inum == c ::
              x == d && l == k)
  {
    hide Key, Unique, DirShape;
    var c := t[d].entries[k].inum;
    assert DirOk(t, d) && EntryOk(t, d, k);
    forall x | LiveDir(t, x)
      ensures t[x].entries[1].inum != c
    {
      assert DirOk(t, x);
    }
    forall x: nat, l: nat | LiveDir(t, x) && 2 <= l < |t[x].entries| && t[x].entries[l].inum == c
      ensures x == d && l == k
    {
      assert DirOk(t, x) && EntryOk(t, x, l);
    }
  }

  /** The tree without the empty directory that entry k of d names. */
  function Removed(t: Tree, d: nat, k: nat, name: string, n: nat): (r: Tree)
    requires d in t && k < |t[d].entries| && t[d].entries[k].inum in t && t[d].entries[k].inum != d
  {
    var c := t[d].entries[k].inum;
    t[d := t[d].(nlink := n, entries := t[d].entries[k := Dirent(0, name)])][c := t[c].(nlink := 0)]
  }

  lemma ShapeRemoved(t: Tree, d: nat, k: nat, name: string, n: nat)
    requires ShapeOk(t) && LiveDir(t, d) && 2 <= k < |t[d].entries| && LiveDir(t, t[d].entries[k].inum) && n > 0
    requires var c := t[d].entries[k].inum; forall l | 2 <= l < |t[c].entries| :: t[c].entries[l].inum == 0
    ensures t[d].entries[k].inum != d && ShapeOk(Removed(t, d, k, name, n))
  {
    hide Key, Unique, NamesOnce, HasName, EntryOk;
    EmptyDir(t, d, k);
    FreeSlot(t, d);
    ClearIsRemoval(t[d].entries, k, name, "");
    var c := t[d].entries[k].inum;
    var r := Removed(t, d, k, name, n);
    assert forall i: nat | i != c :: Carries(t, r, i);
    forall x | LiveDir(r, x)
      ensures DirOk(r, x)
    {
      assert LiveDir(t, x) && DirOk(t, x) && x != c;
      RemovedNames(t, d, k, name, n, x);
      forall l: nat | 2 <= l < |r[x].entries|
        ensures SameEntry(t, r, x, l) || EntryOk(r, x, l)
      {
        if x == d && l == k {
          NoEntry(r, x, l);
        } else {
          assert r[x].entries[l] == t[x].entries[l];
        }
      }
      FramedDir(t, r, x);
    }
  }

  lemma NoEntry(r: Tree, x: nat, l: nat)
    requires x in r && l < |r[x].entries| && r[x].entries[l].inum == 0
    ensures EntryOk(r, x, l)
  {
  }

  lemma RemovedNames(t: Tree, d: nat, k: nat, name: string, n: nat, x: nat)
    requires ShapeOk(t) && d in t && 2 <= k < |t[d].entries| && t[d].entries[k].inum in t && t[d].entries[k].inum != d
    requires LiveDir(t, x) && DirOk(t, x) && x != t[d].entries[k].inum && 0 !in t
    ensures NamesOnce(Removed(t, d, k, name, n), x) && HasName(Removed(t, d, k, name, n), x)
  {
    hide Key, Unique, EntryOk;
    var r := Removed(t, d, k, name, n);
    assert HasName(r, x) by {
      RemovedHasName(t, d, k, name, n, x);
    }
  }

  lemma RemovedHasName(t: Tree, d: nat, k: nat, name: string, n: nat, x: nat)
    requires d in t && 2 <= k < |t[d].entries| && t[d].entries[k].inum in t && t[d].entries[k].inum != d
    requires x in t && HasName(t, x) && x != t[d].entries[k].inum
    ensures HasName(Removed(t, d, k, name, n), x)
  {
    var r := Removed(t, d, k, name, n);
    if x != ROOT {
      var p := t[x].entries[1].inum;
      var l :| 2 <= l < |t[p].entries| && t[p].entries[l].inum == x;
      assert r[p].entries[l].inum == x;
    }
  }

  // ----- New inodes

  lemma NotNamed(t: Tree, i: nat, d: nat, k: nat)
    requires ShapeOk(t) && i !in t && i != 0
    ensures !Counts(t, d, k, i)
  {
    if LiveDir(t, d) && k < |t[d].entries| && t[d].entries[k].inum != 0 {
      EntryNames(t, d, k);
    }
  }

  lemma ShapeNewFile(t: Tree, i: nat, dev: bool)
    requires ShapeOk(t) && i !in t && i != 0
    ensures ShapeOk(t[i := Inode(false, 1, [], dev)])
  {
    hide Key, Unique, NamesOnce, HasName, EntryOk;
    var r := t[i := Inode(false, 1, [], dev)];
    assert forall j: nat :: Carries(t, r, j);
    forall x | LiveDir(r, x)
      ensures DirOk(r, x)
    {
      assert LiveDir(t, x) && DirOk(t, x);
      NewNames(t, r, i, x);
      forall l: nat | 2 <= l < |r[x].entries|
        ensures SameEntry(t, r, x, l)
      {
      }
      FramedDir(t, r, x);
    }
  }

  /** A new inode that x does not name leaves the names in x alone. */
  lemma NewNames(t: Tree, r: Tree, i: nat, x: nat)
    requires ShapeOk(t) && i !in t && i != 0 && LiveDir(t, x) && x in r && r[x].entries == t[x].entries && 0 !in r
    requires forall j | j in t :: j in r && r[j].dir == t[j].dir
    requires Holds(t, r)
    ensures NamesOnce(r, x) && HasName(r, x)
  {
    hide Key, Unique, HasName, Holds;
    assert DirOk(t, x);
    KeepsName(t, r, x);
    forall j, k | 2 <= j < |r[x].entries| && 2 <= k < |r[x].entries| && r[x].entries[j].inum == r[x].entries[k].inum
      && r[x].entries[j].inum in r && r[r[x].entries[j].inum].dir
      ensures j == k
    {
      assert EntryOk(t, x, j);
    }
  }

  /** Every entry in use of t is still there in r. */
  ghost predicate Holds(t: Tree, r: Tree) {
    forall j: nat, l: nat | j in t && l < |t[j].entries| && t[j].entries[l].inum != 0 ::
      j in r && l < |r[j].entries| && r[j].entries[l] == t[j].entries[l]
  }

  lemma KeepsName(t: Tree, r: Tree, x: nat)
    requires Holds(t, r) && x in t && HasName(t, x) && x in r && x != 0
    requires x != ROOT ==> |r[x].entries| >= 2 && r[x].entries[1] == t[x].entries[1]
    ensures HasName(r, x)
  {
    if x != ROOT {
      var p := t[x].entries[1].inum;
      var l :| 2 <= l < |t[p].entries| && t[p].entries[l].inum == x;
      assert r[p].entries[l].inum == x;
    }
  }

  /** A new directory i, named by entry e in d, with n the new count of d. */
  function WithDir(t: Tree, d: nat, k: nat, e: Dirent, dots: seq<Dirent>, n: nat): (r: Tree)
    requires d in t && k <= |t[d].entries|
  {
    t[e.inum := Inode(true, 1, dots, false)][d := t[d].(nlink := n, entries := Put(t[d].entries, k, e))]
  }

  ghost predicate AreDots(dots: seq<Dirent>, i: nat, d: nat) {
    && |dots| == 2 && dots[0].inum == i && Key(dots[0].name) == "." && dots[1].inum == d && Key(dots[1].name) == ".."
  }

  lemma ShapeNewDir(t: Tree, d: nat, e: Dirent, dots: seq<Dirent>, n: nat)
    requires ShapeOk(t) && LiveDir(t, d) && e.inum !in t && e.inum != 0 && n > 0 && AreDots(dots, e.inum, d)
    requires ValueOf(t[d].entries, Key(e.name)).None?
    ensures FreeFrom(t[d].entries, 0) <= |t[d].entries| && ShapeOk(WithDir(t, d, FreeFrom(t[d].entries, 0), e, dots, n))
  {
    hide Key, Unique, NamesOnce, HasName, EntryOk, FreeFrom, Put, ValueOf, AreDots, WithDir;
    FreeSlot(t, d);
    LinkIsUpdate(t[d].entries, e, "");
    var k := FreeFrom(t[d].entries, 0);
    var r := WithDir(t, d, k, e, dots, n);
    NewDirIs(t, d, k, e, dots, n);
    forall x | LiveDir(r, x)
      ensures DirOk(r, x)
    {
      if x == e.inum {
        NewDirOk(t, d, k, e, dots, n);
      } else {
        NewDirOther(t, d, k, e, dots, n, x);
      }
    }
  }

  lemma NewDirOther(t: Tree, d: nat, k: nat, e: Dirent, dots: seq<Dirent>, n: nat, x: nat)
    requires ShapeOk(t) && LiveDir(t, d) && e.inum !in t && e.inum != 0 && n > 0 && AreDots(dots, e.inum, d)
    requires 2 <= k <= |t[d].entries| && (k < |t[d].entries| ==> t[d].entries[k].inum == 0)
    requires Unique(Put(t[d].entries, k, e)) && LiveDir(t, x)
    ensures x in WithDir(t, d, k, e, dots, n) && DirOk(WithDir(t, d, k, e, dots, n), x)
  {
    hide Key, Unique, NamesOnce, HasName, EntryOk, FreeFrom, Put, ValueOf, AreDots, WithDir, Holds;
    var r := WithDir(t, d, k, e, dots, n);
    NewDirIs(t, d, k, e, dots, n);
    assert DirOk(t, x);
    NewDirNames(t, d, k, e, dots, n, x);
    forall l: nat | 2 <= l < |r[x].entries|
      ensures SameEntry(t, r, x, l) || EntryOk(r, x, l)
    {
      if x == d && l == k {
        NewEntryOk(t, d, k, e, dots, n);
      }
    }
    FramedDir(t, r, x);
  }

  lemma NewDirIs(t: Tree, d: nat, k: nat, e: Dirent, dots: seq<Dirent>, n: nat)
    requires LiveDir(t, d) && e.inum !in t && n > 0 && 2 <= k <= |t[d].entries|
      && (k < |t[d].entries| ==> t[d].entries[k].inum == 0)
    ensures var r := WithDir(t, d, k, e, dots, n);
            && (forall j: nat :: Carries(t, r, j)) && Holds(t, r)
            && (forall j | j in t :: j in r && r[j].dir == t[j].dir && (j != d ==> r[j] == t[j]))
            && d in r && |r[d].entries| >= |t[d].entries| && r[d].entries == Put(t[d].entries, k, e)
            && (forall x | LiveDir(r, x) && x != e.inum :: LiveDir(t, x)) && LiveDir(r, d)
            && (forall j: nat :: j in r <==> j in t || j == e.inum)
  {
    hide Key;
    var r := WithDir(t, d, k, e, dots, n);
    assert d != e.inum;
  }

  lemma NewDirOk(t: Tree, d: nat, k: nat, e: Dirent, dots: seq<Dirent>, n: nat)
    requires LiveDir(t, d) && e.inum !in t && n > 0 && 2 <= k <= |t[d].entries| && AreDots(dots, e.inum, d)
    ensures DirOk(WithDir(t, d, k, e, dots, n), e.inum)
  {
    hide Key, Put;
    var r := WithDir(t, d, k, e, dots, n);
    assert d != e.inum && r[e.inum].entries == dots;
    assert r[d].entries[k].inum == e.inum;
    assert Unique(dots) by {
      DotsDiffer(dots, e.inum, d);
    }
  }

  lemma DotsDiffer(dots: seq<Dirent>, i: nat, d: nat)
    requires AreDots(dots, i, d)
    ensures Unique(dots)
  {
    hide Key;
    assert "." != ".." by {
      assert |"."| != |".."|;
    }
  }

  lemma NewEntryOk(t: Tree, d: nat, k: nat, e: Dirent, dots: seq<Dirent>, n: nat)
    requires LiveDir(t, d) && ROOT in t && e.inum !in t && n > 0 && 2 <= k <= |t[d].entries| && AreDots(dots, e.inum, d)
    ensures var r := WithDir(t, d, k, e, dots, n); d in r && k < |r[d].entries| && EntryOk(r, d, k)
  {
    hide Key, Put;
    assert d != e.inum;
  }

  lemma NewDirNames(t: Tree, d: nat, k: nat, e: Dirent, dots: seq<Dirent>, n: nat, x: nat)
    requires ShapeOk(t) && LiveDir(t, d) && e.inum !in t && e.inum != 0 && n > 0 && 2 <= k <= |t[d].entries|
      && (k < |t[d].entries| ==> t[d].entries[k].inum == 0)
    requires LiveDir(t, x)
    ensures var r := WithDir(t, d, k, e, dots, n); x in r && NamesOnce(r, x) && HasName(r, x)
  {
    hide Key, Unique, Put, HasName, WithDir, Holds;
    var r := WithDir(t, d, k, e, dots, n);
    NewDirIs(t, d, k, e, dots, n);
    assert DirOk(t, x);
    KeepsName(t, r, x);
    if x == d {
      forall i, j | 2 <= i < |r[d].entries| && 2 <= j < |r[d].entries| && r[d].entries[i].inum == r[d].entries[j].inum
        && r[d].entries[i].inum in r && r[r[d].entries[i].inum].dir
        ensures i == j
      {
        assert i != k ==> EntryOk(t, d, i);
        assert j != k ==> EntryOk(t, d, j);
      }
    } else {
      NewNames(t, r, e.inum, x);
    }
  }

  // ----- Counts of directories that come and go

  lemma {:induction false} TwoRefs(r: set<(nat, nat)>, p: (nat, nat), q: (nat, nat))
    requires p in r && q in r && p != q
    ensures |r| >= 2
  {
    assert |r - {p}| == |r| - 1;
    assert q in r - {p};
    assert |r - {p} - {q}| == |r - {p}| - 1;
  }

  lemma CountsRef(t: Tree, d: nat, k: nat, i: nat)
    requires ShapeOk(t) && LiveDir(t, d) && 1 <= k < |t[d].entries| && t[d].entries[k].inum == i && i != 0
    ensures (d, k) in Refs(t, i)
  {
    EntryNames(t, d, k);
    assert Counts(t, d, k, i);
  }

  /** The parent of a directory has a link besides the one from that directory. */
  lemma ParentHasTwo(t: Tree, d: nat, c: nat)
    requires TreeOk(t) && LiveDir(t, d) && LiveDir(t, c) && c != d && |t[c].entries| >= 2 && t[c].entries[1].inum == d
    ensures t[d].nlink >= 2
  {
    hide Key, Unique, NamesOnce, EntryOk, Counts;
    assert DirOk(t, c) && DirOk(t, d);
    CountsRef(t, c, 1, d);
    if d == ROOT {
      CountsRef(t, d, 1, d);
      TwoRefs(Refs(t, d), (c, 1), (d, 1));
    } else {
      var p := t[d].entries[1].inum;
      var l :| 2 <= l < |t[p].entries| && t[p].entries[l].inum == d;
      CountsRef(t, p, l, d);
      TwoRefs(Refs(t, d), (c, 1), (p, l));
    }
  }

  ghost predicate OnlyDots(es: seq<Dirent>) {
    && |es| >= 2 && Key(es[0].name) == "." && Key(es[1].name) == ".."
    && forall l | 2 <= l < |es| :: es[l].inum == 0
  }

  ghost predicate Unnamed(t: Tree, i: nat) {
    forall f: nat, l: nat :: !Counts(t, f, l, i)
  }

  /** When an empty directory is no longer in use its parent loses a link. */
  lemma KilledCount(t: Tree, debt: Debt, c: nat, d: nat, next: Debt)
    requires LiveDir(t, c) && t[c].nlink == 1 && 0 !in t && OnlyDots(t[c].entries) && t[c].entries[1].inum == d != c
    requires next == debt[d := Owed(debt, d) - 1][c := Owed(debt, c) + 1]
    requires CountOk(t, debt)
    ensures CountOk(WithCount(t, c, 0), next)
  {
    hide Refs, Key, OnlyDots;
    var r := WithCount(t, c, 0);
    forall j | j in t
      ensures |Refs(t, j)| == |Refs(r, j)| + if j == d then 1 else 0
    {
      KilledRefs(t, c, d, j);
    }
  }

  lemma KilledRefs(t: Tree, c: nat, d: nat, j: nat)
    requires LiveDir(t, c) && j != 0 && OnlyDots(t[c].entries) && t[c].entries[1].inum == d
    ensures |Refs(t, j)| == |Refs(WithCount(t, c, 0), j)| + if j == d then 1 else 0
  {
    hide Refs, Key;
    var r := WithCount(t, c, 0);
    assert "." != ".." by {
      assert |"."| != |".."|;
    }
    forall f: nat, l: nat
      ensures Counts(t, f, l, j) <==> Counts(r, f, l, j) || (j == d && f == c && l == 1)
    {
    }
    if j == d {
      OneMoreRef(r, t, j, c, 1);
    } else {
      SameRefs(t, r, j);
    }
  }

  /** A new directory is a link to its parent and has none itself. */
  lemma NewDirCount(t: Tree, debt: Debt, i: nat, d: nat, dots: seq<Dirent>, next: Debt)
    requires i !in t && i != 0 && 0 !in t && d in t && AreDots(dots, i, d)
    requires next == debt[d := Owed(debt, d) + 1][i := -1]
    requires Unnamed(t, i) && CountOk(t, debt)
    ensures CountOk(t[i := Inode(true, 1, dots, false)], next)
  {
    hide Refs, Key, AreDots, Unnamed;
    var r := t[i := Inode(true, 1, dots, false)];
    forall j | j in t
      ensures |Refs(r, j)| == |Refs(t, j)| + if j == d then 1 else 0
    {
      NewDirRefs(t, i, d, dots, j);
    }
    NewDirUnnamed(t, i, d, dots);
  }

  lemma NewDirRefs(t: Tree, i: nat, d: nat, dots: seq<Dirent>, j: nat)
    requires i !in t && d in t && AreDots(dots, i, d) && j in t
    ensures |Refs(t[i := Inode(true, 1, dots, false)], j)| == |Refs(t, j)| + if j == d then 1 else 0
  {
    hide Refs, Key;
    var r := t[i := Inode(true, 1, dots, false)];
    assert "." != ".." by {
      assert |"."| != |".."|;
    }
    forall f: nat, l: nat
      ensures Counts(r, f, l, j) <==> Counts(t, f, l, j) || (j == d && f == i && l == 1)
    {
    }
    if j == d {
      OneMoreRef(t, r, j, i, 1);
    } else {
      SameRefs(t, r, j);
    }
  }

  lemma NewDirUnnamed(t: Tree, i: nat, d: nat, dots: seq<Dirent>)
    requires i !in t && d in t && AreDots(dots, i, d) && Unnamed(t, i)
    ensures |Refs(t[i := Inode(true, 1, dots, false)], i)| == 0
  {
    hide Key;
    var r := t[i := Inode(true, 1, dots, false)];
    forall p: (nat, nat)
      ensures p !in Refs(r, i)
    {
      assert p == (p.0, p.1);
      assert !Counts(t, p.0, p.1, i);
    }
    assert Refs(r, i) == {};
  }

  lemma NewFileCount(t: Tree, debt: Debt, i: nat, dev: bool)
    requires i !in t && Unnamed(t, i) && CountOk(t, debt)
    ensures CountOk(t[i := Inode(false, 1, [], dev)], debt[i := -1])
  {
    hide Key, Refs, Unnamed;
    var r := t[i := Inode(false, 1, [], dev)];
    forall j: nat
      ensures Refs(r, j) == Refs(t, j)
    {
      NewFileRefs(t, i, dev, j);
    }
    NoRefs(t, i);
  }

  lemma NewFileRefs(t: Tree, i: nat, dev: bool, j: nat)
    requires i !in t
    ensures Refs(t[i := Inode(false, 1, [], dev)], j) == Refs(t, j)
  {
    hide Key, Refs;
    SameRefs(t, t[i := Inode(false, 1, [], dev)], j);
  }

  lemma NoRefs(t: Tree, i: nat)
    requires Unnamed(t, i)
    ensures |Refs(t, i)| == 0
  {
    hide Key;
    forall p: (nat, nat)
      ensures p !in Refs(t, i)
    {
      assert p == (p.0, p.1);
      assert !Counts(t, p.0, p.1, i);
    }
    assert Refs(t, i) == {};
  }
}
