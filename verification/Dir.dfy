/** The loops over names, directory entries and paths. */
module DirCode {

  import opened Optional
  import opened DirSpec

  /** Two names agree in every character up to a NUL, and in DIRSIZ characters at most. */
  ghost predicate SameName(p: string, q: string) {
    forall i | 0 <= i < 14 && NoNul(p, i) :: At(p, i) == At(q, i)
  }

  predicate NoNul(p: string, n: nat) {
    forall j | 0 <= j < n :: At(p, j) != '\0'
  }

  /** Settled at the first difference, NUL or the end. */
  lemma SameNameAt(p: string, q: string, i: nat)
    requires i <= 14 && NoNul(p, i) && forall j | 0 <= j < i :: At(p, j) == At(q, j)
    ensures i == 14 ==> SameName(p, q)
    ensures i < 14 && (At(p, i) == NUL || At(p, i) != At(q, i)) ==> (SameName(p, q) <==> At(p, i) == At(q, i))
  {
    if i < 14 && At(p, i) == At(q, i) == NUL {
      forall k | 0 <= k < 14 && NoNul(p, k)
        ensures At(p, k) == At(q, k)
      {
        assert k <= i;
      }
    }
  }

  /** Compares two names as strncmp does. */
  method Namecmp(p: string, q: string) returns (same: bool)
    ensures same <==> Key(p) == Key(q)
    ensures same <==> SameName(p, q)
  {
    hide KeyFrom, SameName, At;
    var i := 0;
    while i < DIRSIZ && At(p, i) != NUL && At(p, i) == At(q, i)
      invariant i <= DIRSIZ && (Key(p) == Key(q) <==> KeyFrom(p, i) == KeyFrom(q, i))
      invariant NoNul(p, i) && forall j | 0 <= j < i :: At(p, j) == At(q, j)
    {
      KeyHeads(p, q, i);
      i := i + 1;
    }
    SameNameAt(p, q, i);
    if i == DIRSIZ {
      KeyEnds(p, q, i);
      return true;
    }
    KeyHeads(p, q, i);
    if At(p, i) == NUL {
      KeyEnds(p, q, i);
    }
    return At(p, i) == At(q, i);
  }

  /** Fills a field of DIRSIZ characters with a name and NULs after it. */
  method Strncpy(t: string) returns (s: string)
    ensures |s| == 14 && Key(s) == Key(t)
    ensures forall i | |Key(t)| <= i < DIRSIZ :: s[i] == NUL
  {
    s := [];
    while |s| < DIRSIZ && At(t, |s|) != NUL
      invariant |s| <= DIRSIZ && forall i | 0 <= i < |s| :: At(s, i) == At(t, i) != NUL
    {
      s := s + [t[|s|]];
    }
    ghost var n := |s|;
    while |s| < DIRSIZ
      invariant n <= |s| <= DIRSIZ && forall i | 0 <= i < n :: At(s, i) == At(t, i)
      invariant forall i | n <= i < |s| :: s[i] == NUL
    {
      s := s + [NUL];
    }
    SameKey(s, t, 0, n);
    KeyLength(t, 0, n);
  }

  /** Finds the entry with a name. */
  method Dirlookup(es: seq<Dirent>, name: string) returns (k: Option<nat>)
    ensures k == Find(es, Key(name))
    ensures k.Some? ==>
      && k.value < |es| && es[k.value].inum != 0 && Key(es[k.value].name) == Key(name)
      && forall j | 0 <= j < k.value :: es[j].inum == 0 || Key(es[j].name) != Key(name)
    ensures k.None? ==> forall j | 0 <= j < |es| :: es[j].inum == 0 || Key(es[j].name) != Key(name)
  {
    var i := 0;
    while i < |es|
      invariant i <= |es| && FindFrom(es, Key(name), i) == Find(es, Key(name))
    {
      if es[i].inum != 0 {
        var same := Namecmp(name, es[i].name);
        if same {
          return Some(i);
        }
      }
      i := i + 1;
    }
    return None;
  }

  /** Adds a name to a directory, in the first free slot, unless it is there already. */
  method Dirlink(es: seq<Dirent>, name: string, inum: nat) returns (r: seq<Dirent>, ok: bool)
    requires Unique(es) && inum != 0
    ensures ok <==> ValueOf(es, Key(name)).None?
    ensures !ok ==> r == es
    ensures ok ==> Entered(es, Key(name), inum, r)
    ensures Unique(r) && forall key ::
      ValueOf(r, key) == if ok && key == Key(name) then Some(inum) else ValueOf(es, key)
  {
    var k := Dirlookup(es, name);
    if k.Some? {
      return es, false;
    }
    var i := 0;
    while i < |es| && es[i].inum != 0
      invariant i <= |es| && FreeFrom(es, i) == FreeFrom(es, 0)
    {
      i := i + 1;
    }
    var field := Strncpy(name);
    r, ok := Put(es, i, Dirent(inum, field)), true;
    forall key
      ensures Unique(r) && ValueOf(r, key) == if key == Key(name) then Some(inum) else ValueOf(es, key)
    {
      LinkIsUpdate(es, Dirent(inum, field), key);
    }
  }

  /** r is es with the name put into the first free slot. */
  ghost predicate Entered(es: seq<Dirent>, key: string, inum: nat, r: seq<Dirent>) {
    var k := FreeFrom(es, 0);
    k < |r| && |r[k].name| == 14 && Key(r[k].name) == key && r == Put(es, k, Dirent(inum, r[k].name))
  }

  /** Is nothing in use after the first two entries? */
  method IsDirEmpty(es: seq<Dirent>) returns (empty: bool)
    ensures empty <==> forall k | 2 <= k < |es| :: es[k].inum == 0
  {
    var i := 2;
    while i < |es|
      invariant 2 <= i && forall k | 2 <= k < i && k < |es| :: es[k].inum == 0
    {
      if es[i].inum != 0 {
        return false;
      }
      i := i + 1;
    }
    return true;
  }

  /** The element at i has been taken off, and the path goes on with the element after it. */
  ghost predicate Skipped(path: string, i: nat, rest: Option<nat>, name: string)
    requires i <= |path|
  {
    var es := Elems(path, i);
    if rest.None? then es == []
    else
      && i < rest.value <= |path| && es != [] && es[1..] == Elems(path, rest.value) && Key(name) == Key(es[0])
      && (rest.value == |path| <==> Elems(path, rest.value) == [])
  }

  /** In the path from i on, characters s up to e are the first element, cut to DIRSIZ in name,
      and rest is where the element after it begins. */
  ghost predicate IsFirst(path: string, i: nat, s: nat, e: nat, rest: nat, name: string) {
    && i <= s < e <= rest <= |path|
    && Slashes(path, i, s) && NoSlash(path, s, e) && Slashes(path, e, rest)
    && (e < |path| ==> path[e] == '/') && (rest < |path| ==> path[rest] != '/')
    && name == if e - s >= 14 then path[s..s + 14] else path[s..e]
  }

  /** Takes the next element off a path; the rest starts with the element after it. */
  method Skipelem(path: string, i: nat) returns (rest: Option<nat>, name: string)
    requires i <= |path| && NUL !in path
    ensures Skipped(path, i, rest, name)
    ensures rest.None? <==> Slashes(path, i, |path|)
    ensures rest.Some? ==> exists s, e :: IsFirst(path, i, s, e, rest.value, name)
  {
    hide Key;
    name := [];
    var p := i;
    while p < |path| && path[p] == '/'
      invariant i <= p <= |path| && Elems(path, p) == Elems(path, i) && Slashes(path, i, p)
    {
      p := p + 1;
    }
    if p == |path| {
      return None, name;
    }
    var s := p;
    while p < |path| && path[p] != '/'
      invariant s <= p <= |path| && ElemEnd(path, p) == ElemEnd(path, s) && NoSlash(path, s, p)
    {
      p := p + 1;
    }
    ghost var elem, e := path[s..p], p;
    if p - s >= DIRSIZ {
      name := path[s..s + DIRSIZ];
    } else {
      name := path[s..p];
    }
    ShortName(path, s, p);
    assert Elems(path, i) == [elem] + Elems(path, p);
    while p < |path| && path[p] == '/'
      invariant s < e <= p <= |path| && Elems(path, i) == [elem] + Elems(path, p) && Slashes(path, e, p)
    {
      p := p + 1;
    }
    assert IsFirst(path, i, s, e, p, name);
    return Some(p), name;
  }

  lemma ShortName(path: string, s: nat, p: nat)
    requires s <= p <= |path| && NUL !in path
    ensures p - s >= DIRSIZ ==> Key(path[s..s + DIRSIZ]) == Key(path[s..p])
  {
    if p - s >= DIRSIZ {
      SameKey(path[s..s + DIRSIZ], path[s..p], 0, DIRSIZ);
    }
  }
}
