/** The directory tree and the link counts of its inodes. */
module LinkSpec {

  import opened DirSpec

  const ROOT: nat := 1

  /** An inode: a directory with its entries, a device, or else a file. */
  datatype Inode = Inode(dir: bool, nlink: nat, entries: seq<Dirent>, dev: bool)

  datatype Kind = Directory | File | Device

  function KindOf(ip: Inode): (k: Kind) {
    if ip.dir then Directory else if ip.dev then Device else File
  }

  /** The inodes in use, by number. */
  type Tree = map<nat, Inode>

  predicate LiveDir(t: Tree, d: nat) {
    d in t && t[d].dir && t[d].nlink > 0
  }

  // ----- The shape of the tree

  /** The first two entries of a directory are itself and its parent. */
  ghost predicate DirShape(t: Tree, d: nat)
    requires d in t
  {
    var es := t[d].entries;
    && |es| >= 2 && Unique(es)
    && es[0].inum == d && Key(es[0].name) == "."
    && Key(es[1].name) == ".." && LiveDir(t, es[1].inum)
  }

  /** What an entry names exists; a directory is named only in its parent. */
  ghost predicate EntryOk(t: Tree, d: nat, k: nat)
    requires d in t && k < |t[d].entries|
  {
    var i := t[d].entries[k].inum;
    i != 0 ==> i in t && i != ROOT && (t[i].dir ==> LiveDir(t, i) && |t[i].entries| >= 2 && t[i].entries[1].inum == d)
  }

  ghost predicate NamesOnce(t: Tree, d: nat)
    requires d in t
  {
    var es := t[d].entries;
    forall j, k | 2 <= j < |es| && 2 <= k < |es| && es[j].inum == es[k].inum && es[j].inum in t && t[es[j].inum].dir ::
      j == k
  }

  ghost predicate NamedIn(t: Tree, d: nat, c: nat) {
    d in t && exists k :: 2 <= k < |t[d].entries| && t[d].entries[k].inum == c
  }

  /** Every directory but the root is named in its parent. */
  ghost predicate HasName(t: Tree, c: nat)
    requires c in t
  {
    c != ROOT ==> |t[c].entries| >= 2 && NamedIn(t, t[c].entries[1].inum, c)
  }

  ghost predicate DirOk(t: Tree, d: nat)
    requires d in t
  {
    && DirShape(t, d) && NamesOnce(t, d) && HasName(t, d)
    && forall k: nat | 2 <= k < |t[d].entries| :: EntryOk(t, d, k)
  }

  ghost predicate ShapeOk(t: Tree) {
    && LiveDir(t, ROOT) && |t[ROOT].entries| >= 2 && t[ROOT].entries[1].inum == ROOT && 0 !in t
    && forall d | LiveDir(t, d) :: DirOk(t, d)
  }

  // ----- Link counts

  /** Entry k of directory d, which is not its own ".", names i. */
  ghost predicate Counts(t: Tree, d: nat, k: nat, i: nat) {
    LiveDir(t, d) && k < |t[d].entries| && t[d].entries[k].inum == i && Key(t[d].entries[k].name) != "."
  }

  ghost function Refs(t: Tree, i: nat): (r: set<(nat, nat)>)
    ensures forall d: nat, k: nat :: (d, k) in r <==> Counts(t, d, k, i)
  {
    set d: nat, k: nat | d in t && k < |t[d].entries| && Counts(t, d, k, i) :: (d, k)
  }

  type Debt = map<nat, int>

  function Owed(debt: Debt, i: nat): (n: int) {
    if i in debt then debt[i] else 0
  }

  /** The link count of every inode, with what is still owed to it, is the number of entries
      that name it. */
  ghost predicate CountOk(t: Tree, debt: Debt) {
    forall i | i in t :: t[i].nlink + Owed(debt, i) == |Refs(t, i)|
  }

  ghost predicate TreeOk(t: Tree) {
    ShapeOk(t) && CountOk(t, map[])
  }

  // ----- Steps on the counts

  lemma SameRefs(t: Tree, r: Tree, j: nat)
    requires forall d: nat, k: nat :: Counts(r, d, k, j) == Counts(t, d, k, j)
    ensures Refs(r, j) == Refs(t, j)
  {
    forall p: (nat, nat)
      ensures p in Refs(r, j) <==> p in Refs(t, j)
    {
      assert p == (p.0, p.1);
    }
  }

  lemma OneMoreRef(t: Tree, r: Tree, j: nat, d: nat, k: nat)
    requires forall e: nat, l: nat :: Counts(r, e, l, j) <==> Counts(t, e, l, j) || (e == d && l == k)
    requires !Counts(t, d, k, j)
    ensures |Refs(r, j)| == |Refs(t, j)| + 1
  {
    forall p: (nat, nat)
      ensures p in Refs(r, j) <==> p in Refs(t, j) + {(d, k)}
    {
      assert p == (p.0, p.1);
    }
    assert Refs(r, j) == Refs(t, j) + {(d, k)};
  }

  function WithCount(t: Tree, i: nat, n: nat): (r: Tree)
    requires i in t
  {
    t[i := t[i].(nlink := n)]
  }

  function WithEntries(t: Tree, d: nat, es: seq<Dirent>): (r: Tree)
    requires d in t
  {
    t[d := t[d].(entries := es)]
  }

  lemma RefsCount(t: Tree, i: nat, n: nat, j: nat)
    requires i in t && (t[i].dir ==> (n > 0 <==> t[i].nlink > 0))
    ensures Refs(WithCount(t, i, n), j) == Refs(t, j)
  {
    hide Refs, Key;
    SameRefs(t, WithCount(t, i, n), j);
  }

  lemma RefsPut(t: Tree, d: nat, k: nat, e: Dirent, j: nat)
    requires LiveDir(t, d) && k <= |t[d].entries| && (k < |t[d].entries| ==> t[d].entries[k].inum == 0)
    requires e.inum != 0 && Key(e.name) != "." && j != 0
    ensures |Refs(WithEntries(t, d, Put(t[d].entries, k, e)), j)| == |Refs(t, j)| + if j == e.inum then 1 else 0
  {
    hide Refs, Key, Put;
    var es := Put(t[d].entries, k, e);
    var r := WithEntries(t, d, es);
    forall f: nat, l: nat
      ensures Counts(r, f, l, j) <==> Counts(t, f, l, j) || (j == e.inum && f == d && l == k)
    {
    }
    if j == e.inum {
      OneMoreRef(t, r, j, d, k);
    } else {
      SameRefs(t, r, j);
    }
  }

  lemma RefsClear(t: Tree, d: nat, k: nat, name: string, j: nat)
    requires LiveDir(t, d) && k < |t[d].entries| && j != 0
    requires t[d].entries[k].inum != 0 && Key(t[d].entries[k].name) != "."
    ensures |Refs(t, j)| == |Refs(WithEntries(t, d, t[d].entries[k := Dirent(0, name)]), j)| + if j
      == t[d].entries[k].inum then 1 else 0
  {
    hide Refs, Key;
    var i := t[d].entries[k].inum;
    var es := t[d].entries[k := Dirent(0, name)];
    var r := WithEntries(t, d, es);
    forall f: nat, l: nat
      ensures Counts(t, f, l, j) <==> Counts(r, f, l, j) || (j == i && f == d && l == k)
    {
    }
    if j == i {
      OneMoreRef(r, t, j, d, k);
    } else {
      SameRefs(t, r, j);
    }
  }

  /** Changing a count, but not whether a directory is in use, is all put on the debt. */
  lemma CountChange(t: Tree, debt: Debt, i: nat, n: nat)
    requires CountOk(t, debt) && i in t && (t[i].dir ==> (n > 0 <==> t[i].nlink > 0))
    ensures CountOk(WithCount(t, i, n), debt[i := Owed(debt, i) + t[i].nlink - n])
  {
    hide Refs;
    forall j | j in t
      ensures Refs(WithCount(t, i, n), j) == Refs(t, j)
    {
      RefsCount(t, i, n, j);
    }
  }

  /** Putting an entry in a free slot of a directory in use adds one to what it names. */
  lemma EntryAdded(t: Tree, debt: Debt, d: nat, k: nat, e: Dirent)
    requires CountOk(t, debt) && LiveDir(t, d) && k <= |t[d].entries|
      && (k < |t[d].entries| ==> t[d].entries[k].inum == 0)
    requires e.inum != 0 && Key(e.name) != "." && 0 !in t
    ensures CountOk(WithEntries(t, d, Put(t[d].entries, k, e)), debt[e.inum := Owed(debt, e.inum) + 1])
  {
    hide Refs, Put, Key;
    forall j | j in t
      ensures |Refs(WithEntries(t, d, Put(t[d].entries, k, e)), j)| == |Refs(t, j)| + if j == e.inum then 1 else 0
    {
      RefsPut(t, d, k, e, j);
    }
  }

  /** Clearing an entry takes one off what it named. */
  lemma EntryCleared(t: Tree, debt: Debt, d: nat, k: nat, name: string)
    requires CountOk(t, debt) && LiveDir(t, d) && k < |t[d].entries| && 0 !in t
    requires t[d].entries[k].inum != 0 && Key(t[d].entries[k].name) != "."
    ensures var i := t[d].entries[k].inum;
            CountOk(WithEntries(t, d, t[d].entries[k := Dirent(0, name)]), debt[i := Owed(debt, i) - 1])
  {
    hide Refs, Key;
    forall j | j in t
      ensures |Refs(t, j)| == |Refs(WithEntries(t, d, t[d].entries[k := Dirent(0, name)]), j)| + if j
        == t[d].entries[k].inum then 1 else 0
    {
      RefsClear(t, d, k, name, j);
    }
  }

  /** Two counts of debt that agree everywhere. */
  lemma SameDebt(t: Tree, debt: Debt, other: Debt)
    requires CountOk(t, debt) && forall i: nat :: Owed(other, i) == Owed(debt, i)
    ensures CountOk(t, other)
  {
  }
}
