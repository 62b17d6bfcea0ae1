/** Names, directory contents as finite maps from names to inode numbers, and paths. */
module DirSpec {
  import opened Optional

  const DIRSIZ := 14
  const NUL: char := '\0'

  // ----- Names

  /** A character of a buffer; what follows the buffer counts as a NUL. */
  function At(b: string, i: nat): (c: char) {
    if i < |b| then b[i] else NUL
  }

  /** The name held by a buffer from i on: up to a NUL, and no further than DIRSIZ. */
  function KeyFrom(b: string, i: nat): (k: string)
    decreases DIRSIZ - i
  {
    if i >= DIRSIZ || At(b, i) == NUL then [] else [At(b, i)] + KeyFrom(b, i + 1)
  }

  function Key(b: string): (k: string) { KeyFrom(b, 0) }

  /** Buffers that agree up to a NUL, or up to DIRSIZ, hold the same name. */
  lemma {:induction false} SameKey(a: string, b: string, i: nat, n: nat)
    requires i <= n <= DIRSIZ && forall j | i <= j < n :: At(a, j) == At(b, j)
    requires n < DIRSIZ ==> At(a, n) == At(b, n) == NUL
    ensures KeyFrom(a, i) == KeyFrom(b, i)
    decreases n - i
  {
    if i < n {
      SameKey(a, b, i + 1, n);
    }
  }

  lemma {:induction false} KeyLength(b: string, i: nat, n: nat)
    requires i <= n <= DIRSIZ && (forall j | i <= j < n :: At(b, j) != NUL) && (n < DIRSIZ ==> At(b, n) == NUL)
    ensures |KeyFrom(b, i)| == n - i
    decreases n - i
  {
    if i < n {
      KeyLength(b, i + 1, n);
    }
  }

  lemma KeyHeads(p: string, q: string, i: nat)
    requires i < DIRSIZ
    ensures At(p, i) != At(q, i) ==> KeyFrom(p, i) != KeyFrom(q, i)
    ensures At(p, i) == At(q, i) != NUL ==> (KeyFrom(p, i) == KeyFrom(q, i) <==> KeyFrom(p, i + 1) == KeyFrom(q, i + 1))
  {
    if At(p, i) != NUL {
      assert KeyFrom(p, i)[0] == At(p, i) && KeyFrom(p, i)[1..] == KeyFrom(p, i + 1);
    }
    if At(q, i) != NUL {
      assert KeyFrom(q, i)[0] == At(q, i) && KeyFrom(q, i)[1..] == KeyFrom(q, i + 1);
    }
  }

  lemma KeyEnds(p: string, q: string, i: nat)
    requires i <= DIRSIZ
    ensures i == DIRSIZ || (At(p, i) == NUL && At(q, i) == NUL) ==> KeyFrom(p, i) == KeyFrom(q, i)
  {
  }

  // ----- Directories

  datatype Dirent = Dirent(inum: nat, name: string)

  predicate Matches(e: Dirent, key: string) {
    e.inum != 0 && Key(e.name) == key
  }

  /** The first entry from i on with the given name. */
  function FindFrom(es: seq<Dirent>, key: string, i: nat): (k: Option<nat>)
    requires i <= |es|
    decreases |es| - i
    ensures k.Some? ==>
      i <= k.value < |es| && Matches(es[k.value], key) && forall j | i <= j < k.value :: !Matches(es[j], key)
    ensures k.None? ==> forall j | i <= j < |es| :: !Matches(es[j], key)
  {
    if i == |es| then None else if Matches(es[i], key) then Some(i) else FindFrom(es, key, i + 1)
  }

  function Find(es: seq<Dirent>, key: string): (k: Option<nat>)
    ensures k.Some? ==>
      k.value < |es| && Matches(es[k.value], key) && forall j | 0 <= j < k.value :: !Matches(es[j], key)
    ensures k.None? ==> forall j | 0 <= j < |es| :: !Matches(es[j], key)
  {
    FindFrom(es, key, 0)
  }

  /** The finite map a directory stands for. */
  function ValueOf(es: seq<Dirent>, key: string): (v: Option<nat>) {
    var k := Find(es, key);
    if k.None? then None else Some(es[k.value].inum)
  }

  /** No two entries in use have the same name. */
  ghost predicate Unique(es: seq<Dirent>) {
    forall i, j | 0 <= i < |es| && 0 <= j < |es| && es[i].inum != 0 && es[j].inum != 0
      && Key(es[i].name) == Key(es[j].name) :: i == j
  }

  /** The first slot from i on that is not in use, or the end. */
  function FreeFrom(es: seq<Dirent>, i: nat): (k: nat)
    requires i <= |es|
    decreases |es| - i
    ensures i <= k <= |es| && (k < |es| ==> es[k].inum == 0) && forall j | i <= j < k :: es[j].inum != 0
  {
    if i == |es| || es[i].inum == 0 then i else FreeFrom(es, i + 1)
  }

  function Put(es: seq<Dirent>, k: nat, e: Dirent): (r: seq<Dirent>)
    requires k <= |es|
    ensures |r| == if k == |es| then |es| + 1 else |es|
    ensures r[k] == e && forall j | 0 <= j < |es| && j != k :: r[j] == es[j]
  {
    if k == |es| then es + [e] else es[k := e]
  }

  lemma FoundIs(es: seq<Dirent>, key: string, k: nat)
    requires Unique(es) && k < |es| && Matches(es[k], key)
    ensures Find(es, key) == Some(k) && ValueOf(es, key) == Some(es[k].inum)
  {
  }

  /** Linking adds one name to the map, in a slot that was free. */
  lemma LinkIsUpdate(es: seq<Dirent>, e: Dirent, key: string)
    requires Unique(es) && e.inum != 0 && ValueOf(es, Key(e.name)).None?
    ensures var r := Put(es, FreeFrom(es, 0), e);
            && Unique(r)
            && ValueOf(r, key) == if key == Key(e.name) then Some(e.inum) else ValueOf(es, key)
  {
    var k := FreeFrom(es, 0);
    var r := Put(es, k, e);
    assert forall j | 0 <= j < |es| :: !Matches(es[j], Key(e.name));
    if key == Key(e.name) {
      FoundIs(r, key, k);
    } else if Find(es, key).Some? {
      FoundIs(r, key, Find(es, key).value);
    }
  }

  /** Clearing an entry takes its name out of the map. */
  lemma ClearIsRemoval(es: seq<Dirent>, k: nat, name: string, key: string)
    requires Unique(es) && k < |es| && es[k].inum != 0
    ensures var r := es[k := Dirent(0, name)];
            && Unique(r)
            && ValueOf(r, key) == if key == Key(es[k].name) then None else ValueOf(es, key)
  {
    var r := es[k := Dirent(0, name)];
    if key != Key(es[k].name) && Find(es, key).Some? {
      FoundIs(r, key, Find(es, key).value);
    }
  }

  // ----- Paths

  function ElemEnd(path: string, i: nat): (e: nat)
    requires i <= |path|
    decreases |path| - i
    ensures i <= e <= |path| && (e < |path| ==> path[e] == '/') && forall j | i <= j < e :: path[j] != '/'
  {
    if i < |path| && path[i] != '/' then ElemEnd(path, i + 1) else i
  }

  /** The elements of a path from i on: the runs of characters between runs of slashes. */
  function Elems(path: string, i: nat): (es: seq<string>)
    requires i <= |path|
    decreases |path| - i
  {
    if i == |path| then []
    else if path[i] == '/' then Elems(path, i + 1)
    else [path[i..ElemEnd(path, i)]] + Elems(path, ElemEnd(path, i))
  }

  /** Characters lo up to hi are all slashes, or none of them is. */
  predicate Slashes(path: string, lo: nat, hi: nat)
    requires hi <= |path|
  {
    forall j | lo <= j < hi :: path[j] == '/'
  }

  predicate NoSlash(path: string, lo: nat, hi: nat)
    requires hi <= |path|
  {
    forall j | lo <= j < hi :: path[j] != '/'
  }

  /** A path has no element exactly if it is all slashes. */
  lemma {:induction false} SlashesOnly(path: string, i: nat)
    requires i <= |path|
    ensures Elems(path, i) == [] <==> Slashes(path, i, |path|)
    decreases |path| - i
  {
    if i < |path| && path[i] == '/' {
      SlashesOnly(path, i + 1);
    }
  }

  /** Otherwise its first element is the run of other characters after the first slashes. */
  lemma {:induction false} FirstElem(path: string, i: nat, s: nat, e: nat)
    requires i <= s < e <= |path| && Slashes(path, i, s) && NoSlash(path, s, e)
    requires e < |path| ==> path[e] == '/'
    ensures Elems(path, i) == [path[s..e]] + Elems(path, e)
    decreases |path| - i
  {
    if i < s {
      FirstElem(path, i + 1, s, e);
    }
  }
}
