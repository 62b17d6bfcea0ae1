/** Path lookup and the system calls that change names, on the tree of inodes in use. */
module LinkCode {

  import opened Optional
  import opened DirSpec
  import opened DirCode
  import opened LinkSpec
  import opened LinkOps
  import opened LinkSteps

  // ----- Paths

  /** Folds lookups over the elements of a path; for a parent the last one is left over. */
  function Walk(t: Tree, at: nat, elems: seq<string>, parent: bool): (r: Option<nat>)
    decreases |elems|
  {
    if elems == [] then if parent then None else Some(at)
    else if at !in t || !t[at].dir then None
    else if parent && |elems| == 1 then Some(at)
    else
      match ValueOf(t[at].entries, Key(elems[0]))
      case None => None
      case Some(i) => Walk(t, i, elems[1..], parent)
  }

  function Start(path: string, cwd: nat): (i: nat) {
    if path != "" && path[0] == '/' then ROOT else cwd
  }

  function PathOf(t: Tree, path: string, cwd: nat, parent: bool): (r: Option<nat>) {
    Walk(t, Start(path, cwd), Elems(path, 0), parent)
  }

  /** A path that begins with a slash is looked up from the root, wherever the process is. */
  lemma PathStarts(t: Tree, path: string, cwd: nat, parent: bool)
    ensures path != "" && path[0] == '/' ==> PathOf(t, path, cwd, parent) == Walk(t, 1, Elems(path, 0), parent)
    ensures path == "" || path[0] != '/' ==> PathOf(t, path, cwd, parent) == Walk(t, cwd, Elems(path, 0), parent)
    ensures path == "/" ==> PathOf(t, path, cwd, false) == Some(1)
  {
    hide Walk;
    if path == "/" {
      SlashesOnly(path, 0);
      WalkNone(t, 1);
    }
  }

  lemma WalkNone(t: Tree, at: nat)
    ensures Walk(t, at, [], false) == Some(at) && Walk(t, at, [], true) == None
  {
  }

  /** One element is one lookup, in a directory. */
  lemma WalkOne(t: Tree, at: nat, name: string)
    ensures Walk(t, at, [name], false)
      == if at in t && t[at].dir then ValueOf(t[at].entries, Key(name)) else None
  {
    hide Key, ValueOf;
  }

  /** A longer path is looked up from where the shorter one leads. */
  lemma {:induction false} WalkAppend(t: Tree, at: nat, a: seq<string>, b: seq<string>)
    ensures var m := Walk(t, at, a, false);
      Walk(t, at, a + b, false) == if m.None? then None else Walk(t, m.value, b, false)
    decreases |a|
  {
    hide Key, ValueOf;
    if a == [] {
      assert a + b == b;
    } else {
      assert (a + b)[1..] == a[1..] + b;
      if at in t && t[at].dir && ValueOf(t[at].entries, Key(a[0])).Some? {
        WalkAppend(t, ValueOf(t[at].entries, Key(a[0])).value, a[1..], b);
      }
    }
  }

  /** The parent of a path is the directory that the path without its last element leads to. */
  lemma {:induction false} WalkParent(t: Tree, at: nat, es: seq<string>)
    requires es != []
    ensures var d := Walk(t, at, es[..|es| - 1], false);
      Walk(t, at, es, true) == if d.Some? && d.value in t && t[d.value].dir then d else None
    decreases |es|
  {
    hide Key, ValueOf;
    if |es| > 1 {
      assert es[..|es| - 1][1..] == es[1..][..|es| - 2];
      if at in t && t[at].dir && ValueOf(t[at].entries, Key(es[0])).Some? {
        WalkParent(t, ValueOf(t[at].entries, Key(es[0])).value, es[1..]);
      }
    }
  }

  predicate HasLinks(t: Tree, i: nat) { i in t && t[i].nlink > 0 }

  /** A lookup does not depend on link counts. */
  lemma {:induction false} WalkCount(t: Tree, i: nat, n: nat, at: nat, elems: seq<string>, parent: bool)
    requires i in t
    ensures Walk(WithCount(t, i, n), at, elems, parent) == Walk(t, at, elems, parent)
    decreases |elems|
  {
    hide Key, ValueOf;
    if elems != [] && at in t && t[at].dir && ValueOf(t[at].entries, Key(elems[0])).Some? {
      WalkCount(t, i, n, ValueOf(t[at].entries, Key(elems[0])).value, elems[1..], parent);
    }
  }

  // ----- References

  function Count(refs: map<nat, nat>, i: nat): (n: nat) {
    if i in refs then refs[i] else 0
  }

  /** One inode at most has gained a reference, and no other count has changed. */
  ghost predicate Holding(was: map<nat, nat>, now: map<nat, nat>, got: Option<nat>) {
    forall j: nat :: Count(now, j) == Count(was, j) + if got == Some(j) then 1 else 0
  }

  /** One reference has been traded for another. */
  ghost predicate Swapped(was: map<nat, nat>, now: map<nat, nat>, gone: nat, got: Option<nat>) {
    forall j: nat ::
      Count(now, j) == Count(was, j) - (if j == gone then 1 else 0) + if got == Some(j) then 1 else 0
  }

  /** How create ends: with nothing, in a panic, or with the inode it opened or made. */
  datatype CreateResult = NotCreated | NoInodes | Opened(inum: nat) | Made(inum: nat) {
    function Inum(): (i: Option<nat>) {
      if Opened? || Made? then Some(inum) else None
    }
  }

  class FileTree {
    var inodes: Tree
    var refs: map<nat, nat>
    const cwd: nat
    const ninodes: nat

    method Iget(i: nat)
      modifies `refs
      ensures refs == old(refs)[i := Count(old(refs), i) + 1]
    {
      refs := refs[i := Count(refs, i) + 1];
    }

    /** Drops a reference.  The last reference to an inode without links frees it, and then no
        name in a sound tree stood for it: the tree stays sound. */
    method Iput(i: nat)
      requires i in inodes && Count(refs, i) > 0
      modifies `refs, `inodes
      ensures TreeOk(old(inodes)) ==> TreeOk(inodes)
      ensures i in inodes <==> old(inodes)[i].nlink > 0 || Count(refs, i) > 0
      ensures refs == old(refs)[i := Count(old(refs), i) - 1]
      ensures inodes == if Count(old(refs), i) == 1 && old(inodes)[i].nlink == 0 then old(inodes) - {i} else old(inodes)
    {
      hide TreeOk;
      if refs[i] == 1 && inodes[i].nlink == 0 {
        if TreeOk(inodes) {
          FreeKeeps(inodes, i);
        }
        inodes := inodes - {i};
      }
      refs := refs[i := refs[i] - 1];
    }

    /** Goes from a directory to what a name in it stands for, letting go of the directory. */
    method Enter(ip: nat, name: string) returns (next: Option<nat>)
      requires LiveDir(inodes, ip) && AllLinked(inodes) && Count(refs, ip) > 0
      modifies this
      ensures inodes == old(inodes) && next == ValueOf(inodes[ip].entries, Key(name))
      ensures next.Some? ==> HasLinks(inodes, next.value)
      ensures Swapped(old(refs), refs, ip, next)
    {
      hide Key, ValueOf, TreeOk;
      var k := Dirlookup(inodes[ip].entries, name);
      LookupIs(inodes[ip].entries, Key(name));
      if k.None? {
        Iput(ip);
        return None;
      }
      next := Some(inodes[ip].entries[k.value].inum);
      Iget(next.value);
      Iput(ip);
    }

    /** Finds the inode of a path, or of its parent together with the last element: from the
        root if the path begins with a slash, and from the current directory otherwise. */
    method Namex(path: string, parent: bool) returns (r: Option<nat>, name: string)
      requires NUL !in path && ShapeOk(inodes) && AllLinked(inodes) && HasLinks(inodes, cwd)
      modifies this
      ensures inodes == old(inodes) && r == PathOf(inodes, path, cwd, parent) && Holding(old(refs), refs, r)
      ensures path != "" && path[0] == '/' ==> r == Walk(inodes, 1, Elems(path, 0), parent)
      ensures path == "" || path[0] != '/' ==> r == Walk(inodes, cwd, Elems(path, 0), parent)
      ensures path == "/" && !parent ==> r == Some(1)
      ensures r.Some? ==> HasLinks(inodes, r.value)
      ensures r.Some? && parent ==>
        LiveDir(inodes, r.value) && Elems(path, 0) != [] && Key(name) == Key(Last(Elems(path, 0)))
    {
      hide ShapeOk, AllLinked, Elems, Key, Walk, PathOf, Holding;
      PathStarts(inodes, path, cwd, parent);
      r, name := Descend(path, parent);
    }

    /** The loop of namex. */
    method Descend(path: string, parent: bool) returns (r: Option<nat>, name: string)
      requires NUL !in path && ShapeOk(inodes) && AllLinked(inodes) && HasLinks(inodes, cwd)
      modifies this
      ensures inodes == old(inodes) && r == PathOf(inodes, path, cwd, parent) && Holding(old(refs), refs, r)
      ensures r.Some? ==> HasLinks(inodes, r.value)
      ensures r.Some? && parent ==>
        LiveDir(inodes, r.value) && Elems(path, 0) != [] && Key(name) == Key(Last(Elems(path, 0)))
    {
      hide TreeOk, ShapeOk, AllLinked, Elems, Key, ValueOf, Walk, Slashes, IsFirst;
      RootLinked(inodes);
      var ip := Start(path, cwd);
      Iget(ip);
      var i := 0;
      var rest;
      rest, name := Skipelem(path, 0);
      ghost var goal := PathOf(inodes, path, cwd, parent);
      while rest.Some?
        invariant inodes == old(inodes) && HasLinks(inodes, ip) && Holding(old(refs), refs, Some(ip))
        invariant i <= |path| && Skipped(path, i, rest, name) && Walk(inodes, ip, Elems(path, i), parent) == goal
        invariant rest.Some? ==> Elems(path, 0) != [] && Last(Elems(path, i)) == Last(Elems(path, 0))
        decreases |path| - i, rest.Some?
      {
        WalkStep(inodes, ip, Elems(path, i), parent);
        if !inodes[ip].dir {
          Iput(ip);
          return None, name;
        }
        if parent && rest.value == |path| {
          return Some(ip), name;
        }
        var next := Enter(ip, name);
        if next.None? {
          return None, name;
        }
        ip := next.value;
        i := rest.value;
        rest, name := Skipelem(path, i);
      }
      WalkStep(inodes, ip, Elems(path, i), parent);
      if parent {
        Iput(ip);
        return None, name;
      }
      return Some(ip), name;
    }

    // ----- link

    /** Gives the file at one path a second name at another. */
    method Link(from: string, to: string) returns (ok: bool)
      requires NUL !in from && NUL !in to && HasLinks(inodes, cwd)
      requires TreeOk(inodes)
      modifies this
      ensures TreeOk(inodes) && Holding(old(refs), refs, None)
      ensures var i, d, key := PathOf(old(inodes), from, cwd, false), PathOf(old(inodes), to, cwd, true),
        Key(Last(Elems(to, 0)));
              && (ok <==> CanLink(old(inodes), i, d, key))
              && (ok ==> i.Some? && i.value in old(inodes) && !old(inodes)[i.value].dir)
              && (ok ==> d.Some? && d.value in old(inodes) && ValueOf(old(inodes)[d.value].entries, key).None?)
              && (!ok && i.Some? && d.Some? && i.value in old(inodes) && d.value in old(inodes) ==>
                old(inodes)[i.value].dir || ValueOf(old(inodes)[d.value].entries, key).Some?)
              && (ok ==> NameSet(old(inodes), inodes, d.value, key, i) && inodes.Keys == old(inodes).Keys)
      ensures !ok ==> inodes == old(inodes)
    {
      hide Key, ValueOf, Elems, Walk, AllLinked, ShapeOk, CountOk;
      TreeIsLinked(inodes);
      var ip, _ := Namex(from, false);
      if ip.None? {
        return false;
      }
      if inodes[ip.value].dir {
        Iput(ip.value);
        return false;
      }
      ghost var was := inodes;
      inodes := WithCount(inodes, ip.value, inodes[ip.value].nlink + 1);
      NotZero(was, ip.value);
      Promise(was, ip.value, inodes);
      WalkCount(was, ip.value, was[ip.value].nlink + 1, Start(to, cwd), Elems(to, 0), true);
      ok := LinkUnder(to, ip.value, was);
      if !ok {
        TakeBack(was, ip.value, inodes);
        inodes := WithCount(inodes, ip.value, inodes[ip.value].nlink - 1);
      }
      Iput(ip.value);
    }

    /** Puts the promised name for file i into the directory of a path. */
    method LinkUnder(to: string, i: nat, ghost was: Tree) returns (ok: bool)
      requires NUL !in to && HasLinks(inodes, cwd) && i in inodes && !inodes[i].dir && i != 0
      requires i in was && inodes == WithCount(was, i, was[i].nlink + 1)
      requires ShapeOk(inodes) && AllLinked(inodes) && CountOk(inodes, map[i := -1])
      modifies this
      ensures Holding(old(refs), refs, None)
      ensures !ok ==> inodes == old(inodes)
      ensures var d, key := PathOf(old(inodes), to, cwd, true), Key(Last(Elems(to, 0)));
              && (ok <==> d.Some? && d.value in was && ValueOf(was[d.value].entries, key).None?)
              && (ok ==>
                TreeOk(inodes) && NameSet(was, inodes, d.value, key, Some(i)) && inodes.Keys == was.Keys
                  && inodes[i] == old(inodes)[i])
    {
      hide Key, ValueOf, Elems, Walk, AllLinked, ShapeOk, CountOk, FreeFrom, Put;
      var dp, name := Namex(to, true);
      if dp.None? {
        return false;
      }
      var d := dp.value;
      FreeSlot(inodes, d);
      var es;
      es, ok := Dirlink(inodes[d].entries, name, i);
      if ok {
        ghost var t := inodes;
        LinkKeeps(t, d, Dirent(i, es[FreeFrom(t[d].entries, 0)].name));
        inodes := WithEntries(inodes, d, es);
        NameIsSet(was, t, d, es, Key(name), Some(i));
      }
      Iput(d);
    }

    // ----- unlink

    /** Takes a name away, and with the last name and the last reference the inode. */
    method Unlink(path: string) returns (ok: bool)
      requires NUL !in path && HasLinks(inodes, cwd)
      requires TreeOk(inodes)
      modifies this
      ensures TreeOk(inodes) && Holding(old(refs), refs, None)
      ensures !ok ==> inodes == old(inodes)
      ensures var d, key := PathOf(old(inodes), path, cwd, true), Key(Last(Elems(path, 0)));
              && (ok <==> CanUnlink(old(inodes), d, key))
              && (d.Some? ==> d.value in old(inodes))
              && (ok <==> d.Some? && key != "." && key != ".." && Removable(old(inodes), d.value, key))
              && (ok ==>
                NameSet(old(inodes), inodes, d.value, key, None)
                  && Dropped(old(inodes), old(refs), inodes, Names(old(inodes), d.value, key)))
    {
      hide Key, ValueOf, Elems, Walk, AllLinked, ShapeOk, CountOk, NameSet, Names;
      TreeIsLinked(inodes);
      var dp, name := Namex(path, true);
      if dp.None? {
        return false;
      }
      var dot := Namecmp(name, ".");
      var dotdot := Namecmp(name, "..");
      DotKeys();
      if dot || dotdot {
        Iput(dp.value);
        return false;
      }
      ok := UnlinkIn(dp.value, name);
    }

    /** The rest of unlink, with a reference to the directory in hand. */
    method UnlinkIn(d: nat, name: string) returns (ok: bool)
      requires LiveDir(inodes, d) && Count(refs, d) > 0 && Key(name) != "." && Key(name) != ".."
      requires TreeOk(inodes)
      modifies this
      ensures TreeOk(inodes) && Holding(refs, old(refs), Some(d))
      ensures !ok ==> inodes == old(inodes)
      ensures ok <==> CanUnlink(old(inodes), Some(d), Key(name))
      ensures ok ==> NameSet(old(inodes), inodes, d, Key(name), None) && Names(old(inodes), d, Key(name)) != d
      ensures ok ==> Dropped(old(inodes), old(refs), inodes, Names(old(inodes), d, Key(name)))
    {
      hide Key, ValueOf, AllLinked, ShapeOk, CountOk, NameSet;
      var k := Dirlookup(inodes[d].entries, name);
      LookupIs(inodes[d].entries, Key(name));
      if k.None? {
        Iput(d);
        return false;
      }
      var i := inodes[d].entries[k.value].inum;
      EntryNames(inodes, d, k.value);
      NamedIsLinked(inodes, d, k.value);
      Iget(i);
      if inodes[i].dir {
        var empty := IsDirEmpty(inodes[i].entries);
        if !empty {
          Iput(i);
          Iput(d);
          return false;
        }
      }
      RemoveEntry(d, k.value);
      return true;
    }

    /** Clears an entry and drops the links and references that go with it. */
    method RemoveEntry(d: nat, k: nat)
      requires LiveDir(inodes, d) && Count(refs, d) > 0 && 2 <= k < |inodes[d].entries|
        && inodes[d].entries[k].inum in inodes
      requires var i := inodes[d].entries[k].inum;
               Count(refs, i) > 0
                 && (inodes[i].dir ==> forall l | 2 <= l < |inodes[i].entries| :: inodes[i].entries[l].inum == 0)
      requires TreeOk(inodes)
      modifies this
      ensures var i := old(inodes)[d].entries[k].inum;
              && i != d && refs == old(refs)[d := Count(old(refs), d) - 1][i := Count(old(refs), i) - 1]
              && Dropped(old(inodes), old(refs)[i := Count(old(refs), i) - 1], inodes, i)
      ensures TreeOk(inodes) && NameSet(old(inodes), inodes, d, Key(old(inodes)[d].entries[k].name), None)
    {
      hide Key, ValueOf, ShapeOk, CountOk, NameSet;
      ghost var was := inodes;
      var i := inodes[d].entries[k].inum;
      ghost var blank := seq(DIRSIZ, _ => NUL);
      var es := inodes[d].entries[k := Dirent(0, seq(DIRSIZ, _ => NUL))];
      inodes := WithEntries(inodes, d, es);
      if inodes[i].dir {
        RemoveDirKeeps(was, d, k, blank);
        inodes := WithCount(inodes, d, inodes[d].nlink - 1);
      } else {
        UnlinkFileKeeps(was, d, k, blank);
      }
      Iput(d);
      inodes := WithCount(inodes, i, inodes[i].nlink - 1);
      assert was[i].dir ==> inodes == Removed(was, d, k, blank, was[d].nlink - 1);
      NotZero(was, i);
      FinishUnlink(was, inodes, d, k, i);
      Iput(i);
    }

    // ----- create

    /** ialloc(): the first inode number that is not in use, None where it panics. */
    method Ialloc() returns (r: Option<nat>)
      ensures r.None? <==> forall i: nat | 1 <= i < ninodes :: i in inodes
      ensures r.Some? ==>
        1 <= r.value < ninodes && r.value !in inodes && forall i: nat | 1 <= i < r.value :: i in inodes
    {
      var inum: nat := 1;
      while inum < ninodes
        invariant 1 <= inum && forall i: nat | 1 <= i < inum :: i in inodes
      {
        if inum !in inodes {
          return Some(inum);
        }
        inum := inum + 1;
      }
      return None;
    }

    /** Makes a file, a directory or a device under a new name, or opens a file that is there;
        panics when there is no inode left. */
    method Create(path: string, kind: Kind) returns (r: CreateResult)
      requires NUL !in path && HasLinks(inodes, cwd)
      requires TreeOk(inodes)
      modifies this
      ensures TreeOk(inodes) && (r != NoInodes ==> Holding(old(refs), refs, r.Inum()))
      ensures var d, key := PathOf(old(inodes), path, cwd, true), Key(Last(Elems(path, 0)));
              if d.None? then r == NotCreated && inodes == old(inodes)
              else
                && d.value in old(inodes) && Created(old(inodes), inodes, ninodes, d.value, key, kind, r)
                && CreateEnds(old(inodes), ninodes, d.value, key, kind, r)
    {
      hide Key, ValueOf, Elems, Walk, AllLinked, ShapeOk, CountOk, Created, CreateEnds;
      TreeIsLinked(inodes);
      var dp, name := Namex(path, true);
      if dp.None? {
        return NotCreated;
      }
      r := CreateIn(dp.value, name, kind);
      CreatedEnds(old(inodes), inodes, ninodes, dp.value, Key(name), kind, r);
    }

    /** The rest of create, with a reference to the directory in hand. */
    method CreateIn(d: nat, name: string, kind: Kind) returns (r: CreateResult)
      requires LiveDir(inodes, d) && Count(refs, d) > 0
      requires TreeOk(inodes)
      modifies this
      ensures TreeOk(inodes) && (r != NoInodes ==> Swapped(old(refs), refs, d, r.Inum()))
      ensures Created(old(inodes), inodes, ninodes, d, Key(name), kind, r)
    {
      hide Key, ValueOf, AllLinked, ShapeOk, CountOk, NameSet, AreDots;
      var k := Dirlookup(inodes[d].entries, name);
      LookupIs(inodes[d].entries, Key(name));
      if k.Some? {
        var i := inodes[d].entries[k.value].inum;
        NamedIsLinked(inodes, d, k.value);
        Iget(i);
        Iput(d);
        if kind == File && KindOf(inodes[i]) == File {
          return Opened(i);
        }
        Iput(i);
        return NotCreated;
      }
      var ino := Ialloc();
      if ino.None? {
        return NoInodes;
      }
      Iget(ino.value);
      if kind == Directory {
        MakeDir(d, name, ino.value);
      } else {
        MakeFile(d, name, ino.value, kind == Device);
      }
      Iput(d);
      return Made(ino.value);
    }

    method MakeFile(d: nat, name: string, ino: nat, dev: bool)
      requires LiveDir(inodes, d) && ino !in inodes && ino != 0 && ValueOf(inodes[d].entries, Key(name)).None?
      requires TreeOk(inodes)
      modifies `inodes
      ensures TreeOk(inodes) && LiveDir(inodes, d)
      ensures NameSet(old(inodes), inodes, d, Key(name), Some(ino)) && inodes.Keys == old(inodes).Keys + {ino}
      ensures inodes[ino] == Inode(false, 1, [], dev)
    {
      hide Key, ValueOf, ShapeOk, CountOk, FreeFrom, Put;
      ghost var was := inodes;
      FreeSlot(was, d);
      inodes := inodes[ino := Inode(false, 1, [], dev)];
      ghost var t := inodes;
      var es, ok := Dirlink(inodes[d].entries, name, ino);
      CreateFileKeeps(was, d, Dirent(ino, es[FreeFrom(was[d].entries, 0)].name), dev);
      inodes := WithEntries(inodes, d, es);
      NameIsSet(was, t, d, es, Key(name), Some(ino));
    }

    method MakeDir(d: nat, name: string, ino: nat)
      requires LiveDir(inodes, d) && ino !in inodes && ino != 0 && ValueOf(inodes[d].entries, Key(name)).None?
      requires TreeOk(inodes)
      modifies `inodes
      ensures TreeOk(inodes) && LiveDir(inodes, d)
      ensures NameSet(old(inodes), inodes, d, Key(name), Some(ino)) && inodes.Keys == old(inodes).Keys + {ino}
      ensures KindOf(inodes[ino]) == Directory && inodes[ino].nlink == 1 && AreDots(inodes[ino].entries, ino, d)
    {
      hide Key, ValueOf, ShapeOk, CountOk, FreeFrom, Put, AreDots, NameSet, Unique;
      ghost var was := inodes;
      FreeSlot(was, d);
      NotZero(was, d);
      inodes := inodes[ino := Inode(true, 1, [], false)];
      inodes := WithCount(inodes, d, inodes[d].nlink + 1);
      var dots := MakeDots(ino, d);
      inodes := WithEntries(inodes, ino, dots);
      ghost var t := inodes;
      var es, ok := Dirlink(inodes[d].entries, name, ino);
      ghost var e := Dirent(ino, es[FreeFrom(was[d].entries, 0)].name);
      CreateDirKeeps(was, d, e, dots);
      inodes := WithEntries(inodes, d, es);
      assert inodes == WithDir(was, d, FreeFrom(was[d].entries, 0), e, dots, was[d].nlink + 1);
      NameIsSet(was, t, d, es, Key(name), Some(ino));
    }
  }

  lemma WalkStep(t: Tree, at: nat, es: seq<string>, parent: bool)
    requires at in t
    ensures es == [] ==> Walk(t, at, es, parent) == if parent then None else Some(at)
    ensures es != [] && !t[at].dir ==> Walk(t, at, es, parent) == None
    ensures es != [] && t[at].dir && parent && es[1..] == [] ==>
      Walk(t, at, es, parent) == Some(at) && Last(es) == es[0]
    ensures es != [] && t[at].dir && (parent ==> es[1..] != []) ==>
              var v := ValueOf(t[at].entries, Key(es[0]));
              Walk(t, at, es, parent) == if v.None? then None else Walk(t, v.value, es[1..], parent)
    ensures es != [] && es[1..] != [] ==> Last(es[1..]) == Last(es)
  {
    hide Key, ValueOf;
  }

  function Last(es: seq<string>): (e: string)
  {
    if es == [] then "" else es[|es| - 1]
  }

  lemma RootLinked(t: Tree)
    requires ShapeOk(t)
    ensures HasLinks(t, ROOT) && LiveDir(t, ROOT)
  {
  }

  lemma LookupIs(es: seq<Dirent>, key: string)
    ensures Find(es, key).None? ==> ValueOf(es, key) == None
    ensures Find(es, key).Some? ==>
      ValueOf(es, key) == Some(es[Find(es, key).value].inum) && es[Find(es, key).value].inum != 0
  {
  }

  ghost predicate CanLink(t: Tree, i: Option<nat>, d: Option<nat>, key: string) {
    i.Some? && i.value in t && !t[i.value].dir && d.Some? && d.value in t && ValueOf(t[d.value].entries, key).None?
  }

  /** From t to r the name key in d now stands for v, and no other name has changed. */
  ghost predicate NameSet(t: Tree, r: Tree, d: nat, key: string, v: Option<nat>) {
    forall x: nat, m: string | x in t && x in r ::
      && r[x].dir == t[x].dir && r[x].dev == t[x].dev
      && ValueOf(r[x].entries, m) == if x == d && m == key then v else ValueOf(t[x].entries, m)
  }

  lemma NameIsSet(t: Tree, u: Tree, d: nat, es: seq<Dirent>, key: string, v: Option<nat>)
    requires d in t && d in u && (forall x | x in t && x in u ::
      u[x].entries == t[x].entries && u[x].dir == t[x].dir && u[x].dev == t[x].dev)
    requires forall m: string :: ValueOf(es, m) == if m == key then v else ValueOf(u[d].entries, m)
    ensures NameSet(t, WithEntries(u, d, es), d, key, v)
  {
    hide Key, ValueOf;
  }

  lemma DotKeys()
    ensures Key(".") == "." && Key("..") == ".."
  {
    assert KeyFrom(".", 1) == [] && KeyFrom("..", 2) == [];
    assert KeyFrom("..", 1) == ".";
  }

  ghost predicate CanUnlink(t: Tree, d: Option<nat>, key: string) {
    && d.Some? && d.value in t && key != "." && key != ".."
    && ValueOf(t[d.value].entries, key).Some?
    && var i := ValueOf(t[d.value].entries, key).value;
       i in t && (t[i].dir ==> forall l | 2 <= l < |t[i].entries| :: t[i].entries[l].inum == 0)
  }

  /** The name is there, and what it stands for is a file or an empty directory. */
  ghost predicate Removable(t: Tree, d: nat, key: string)
    requires d in t
  {
    match ValueOf(t[d].entries, key)
    case None => false
    case Some(i) => i in t && (t[i].dir ==> forall l | 2 <= l < |t[i].entries| :: t[i].entries[l].inum == 0)
  }

  /** Inode i has lost a link; it has gone if that was its last and nothing refers to it. */
  ghost predicate Dropped(t: Tree, refs: map<nat, nat>, r: Tree, i: nat) {
    && i in t && t[i].nlink > 0
    && (if t[i].nlink == 1 && Count(refs, i) == 0
      then r.Keys == t.Keys - {i} else r.Keys == t.Keys && r[i].nlink == t[i].nlink - 1)
  }

  /** The inode a name stands for, 0 if none. */
  function Names(t: Tree, d: nat, key: string): (i: nat) {
    if d in t && ValueOf(t[d].entries, key).Some? then ValueOf(t[d].entries, key).value else 0
  }

  lemma FinishUnlink(t: Tree, r: Tree, d: nat, k: nat, i: nat)
    requires LiveDir(t, d) && k < |t[d].entries| && t[d].entries[k].inum == i && i != 0 && i in r
    requires r.Keys == t.Keys && forall x | x in t ::
      r[x].dir == t[x].dir && r[x].dev == t[x].dev && r[x].entries == if x == d
        then t[d].entries[k := Dirent(0, seq(DIRSIZ, _ => NUL))] else t[x].entries
    requires ShapeOk(t) && TreeOk(r)
    ensures NameSet(t, r, d, Key(t[d].entries[k].name), None)
    ensures r[i].nlink == 0 ==> TreeOk(r - {i}) && NameSet(t, r - {i}, d, Key(t[d].entries[k].name), None)
  {
    hide Key, ValueOf, ShapeOk, CountOk;
    NameIsCleared(t, r, d, k);
    if r[i].nlink == 0 {
      FreeKeeps(r, i);
      NameIsCleared(t, r - {i}, d, k);
    }
  }

  lemma NameIsCleared(t: Tree, r: Tree, d: nat, k: nat)
    requires LiveDir(t, d) && k < |t[d].entries| && t[d].entries[k].inum != 0
    requires forall x | x in t && x in r ::
      r[x].dir == t[x].dir && r[x].dev == t[x].dev && r[x].entries == if x == d
        then t[d].entries[k := Dirent(0, seq(DIRSIZ, _ => NUL))] else t[x].entries
    requires ShapeOk(t)
    ensures NameSet(t, r, d, Key(t[d].entries[k].name), None)
  {
    hide Key, ValueOf, ShapeOk;
    FreeSlot(t, d);
    var es := t[d].entries[k := Dirent(0, seq(DIRSIZ, _ => NUL))];
    forall m: string
      ensures ValueOf(es, m) == if m == Key(t[d].entries[k].name) then None else ValueOf(t[d].entries, m)
    {
      ClearIsRemoval(t[d].entries, k, seq(DIRSIZ, _ => NUL), m);
    }
  }

  /** The two entries of a new directory; neither can be there already. */
  method MakeDots(i: nat, d: nat) returns (es: seq<Dirent>)
    requires i != 0 && d != 0
    ensures AreDots(es, i, d)
  {
    DotKeys();
    var ok;
    es, ok := Dirlink([], ".", i);
    assert Find([], ".").None?;
    ghost var one := es;
    assert |one| == 1 && one[0].inum == i && Key(one[0].name) == ".";
    assert ValueOf(one, "..").None? by {
      assert Find([], "..").None?;
      assert |"."| != |".."|;
    }
    es, ok := Dirlink(es, "..", d);
    assert FreeFrom(one, 0) == 1;
  }

  /** What create does in a directory d: open a file that is there, refuse anything else that
      is there, or make what is not, with the lowest free number, if there is one. */
  ghost predicate Created(t: Tree, r: Tree, ninodes: nat, d: nat, key: string, kind: Kind, got: CreateResult)
    requires d in t
  {
    var v := ValueOf(t[d].entries, key);
    if v.Some? then
      r == t && v.value in t && got == if kind == File && KindOf(t[v.value]) == File
        then Opened(v.value) else NotCreated
    else if forall i: nat | 1 <= i < ninodes :: i in t then got == NoInodes && r == t
    else got.Made? && MadeAt(t, r, d, key, kind, got.inum)
  }

  /** Which way create ends, from the directory alone: it opens exactly a file it was asked to
      make, refuses every other name that is there, panics exactly if all inodes are in use. */
  ghost predicate CreateEnds(t: Tree, ninodes: nat, d: nat, key: string, kind: Kind, got: CreateResult)
    requires d in t
  {
    var v := ValueOf(t[d].entries, key);
    && (got.Opened? <==> kind == File && v.Some? && v.value in t && !t[v.value].dir && !t[v.value].dev)
    && (got.Opened? ==> got.inum == v.value)
    && (v.Some? ==> got.Opened? || got == NotCreated)
    && (got == NoInodes <==> v.None? && forall i: nat | 1 <= i < ninodes :: i in t)
    && (got == NotCreated ==> v.Some?)
  }

  lemma CreatedEnds(t: Tree, r: Tree, ninodes: nat, d: nat, key: string, kind: Kind, got: CreateResult)
    requires d in t && Created(t, r, ninodes, d, key, kind, got)
    ensures CreateEnds(t, ninodes, d, key, kind, got)
  {
    hide ValueOf, MadeAt;
  }

  /** The new inode has the one name, the right kind and, if a directory, just the dots. */
  ghost predicate MadeAt(t: Tree, r: Tree, d: nat, key: string, kind: Kind, ino: nat) {
    && ino !in t && (forall i: nat | 1 <= i < ino :: i in t) && r.Keys == t.Keys + {ino}
    && NameSet(t, r, d, key, Some(ino)) && KindOf(r[ino]) == kind && r[ino].nlink == 1
    && if kind == Directory then AreDots(r[ino].entries, ino, d) else r[ino].entries == []
  }
}
