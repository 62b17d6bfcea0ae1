/** The LRU ring of bio.c: a circular doubly linked list through prev and next. */
module BioSpec {

  function After(n: nat, i: nat): (j: nat)
    requires i < n
    ensures j < n
  {
    if i + 1 == n then 0 else i + 1
  }

  /** Node i of the ring and its successor point at each other. */
  ghost predicate LinkOk(nodes: seq<nat>, prev: seq<nat>, next: seq<nat>, i: nat)
    requires i < |nodes|
  {
    var a, b := nodes[i], nodes[After(|nodes|, i)];
    a < |next| && next[a] == b && b < |prev| && prev[b] == a
  }

  ghost predicate Distinct(nodes: seq<nat>) {
    forall i, j | 0 <= i < j < |nodes| :: nodes[i] != nodes[j]
  }

  /** `nodes`, from the list head on, is the ring that the pointers describe. */
  ghost predicate RingOk(nodes: seq<nat>, prev: seq<nat>, next: seq<nat>) {
    && 0 < |nodes| && Distinct(nodes)
    && forall i: nat | i < |nodes| :: LinkOk(nodes, prev, next, i)
  }

  // ----- The two halves of the move in brelse

  function UnlinkPrev(prev: seq<nat>, next: seq<nat>, b: nat): (r: seq<nat>)
    requires b < |prev| && b < |next| && next[b] < |prev|
  {
    prev[next[b] := prev[b]]
  }

  function UnlinkNext(prev: seq<nat>, next: seq<nat>, b: nat): (r: seq<nat>)
    requires b < |prev| && b < |next| && prev[b] < |next|
  {
    next[prev[b] := next[b]]
  }

  function Without(nodes: seq<nat>, k: nat): (r: seq<nat>)
    requires k < |nodes|
    ensures |r| == |nodes| - 1
    ensures forall i | 0 <= i < k :: r[i] == nodes[i]
    ensures forall i | k <= i < |r| :: r[i] == nodes[i + 1]
  {
    nodes[..k] + nodes[k + 1..]
  }

  lemma UnlinkOk(nodes: seq<nat>, prev: seq<nat>, next: seq<nat>, k: nat)
    requires RingOk(nodes, prev, next) && 0 < k < |nodes|
    ensures var b := nodes[k];
      && b < |prev| && b < |next| && next[b] < |prev| && prev[b] < |next|
      && RingOk(Without(nodes, k), UnlinkPrev(prev, next, b), UnlinkNext(prev, next, b))
  {
    var b := nodes[k];
    var n := |nodes|;
    assert LinkOk(nodes, prev, next, k) && LinkOk(nodes, prev, next, k - 1);
    var r, prev', next' := Without(nodes, k), UnlinkPrev(prev, next, b), UnlinkNext(prev, next, b);
    assert prev[b] == nodes[k - 1] && next[b] == nodes[After(n, k)];
    forall i: nat | i < |r|
      ensures LinkOk(r, prev', next', i)
    {
      var j := if i < k then i else i + 1;
      assert LinkOk(nodes, prev, next, j);
    }
  }

  function InsertPrev(prev: seq<nat>, next: seq<nat>, head: nat, b: nat): (r: seq<nat>)
    requires head < |next| && b < |prev| && next[head] < |prev|
  {
    prev[b := head][next[head] := b]
  }

  function InsertNext(next: seq<nat>, head: nat, b: nat): (r: seq<nat>)
    requires head < |next| && b < |next|
  {
    next[b := next[head]][head := b]
  }

  function Front(nodes: seq<nat>, b: nat): (r: seq<nat>)
    requires 0 < |nodes|
    ensures |r| == |nodes| + 1 && r[0] == nodes[0] && r[1] == b
    ensures forall i | 2 <= i < |r| :: r[i] == nodes[i - 1]
  {
    [nodes[0], b] + nodes[1..]
  }

  lemma InsertOk(nodes: seq<nat>, prev: seq<nat>, next: seq<nat>, b: nat)
    requires RingOk(nodes, prev, next) && b !in nodes && b < |prev| && b < |next|
    ensures var head := nodes[0];
      && head < |next| && next[head] < |prev|
      && RingOk(Front(nodes, b), InsertPrev(prev, next, head, b), InsertNext(next, head, b))
  {
    var head := nodes[0];
    assert LinkOk(nodes, prev, next, 0);
    var r, prev', next' := Front(nodes, b), InsertPrev(prev, next, head, b), InsertNext(next, head, b);
    forall i: nat | i < |r|
      ensures LinkOk(r, prev', next', i)
    {
      if 1 < i {
        assert LinkOk(nodes, prev, next, i - 1);
        assert nodes[i - 1] != head && nodes[i - 1] != b;
      }
    }
  }
}
