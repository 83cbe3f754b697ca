/**
  The circular doubly linked list of Lab/code/bio.c. Nodes are numbers; a ring lists the nodes
  in the order of `next`, starting with the list head.
 */
module LruList {

  ghost predicate Distinct(ring: seq<nat>) {
    forall i, j :: 0 <= i < j < |ring| ==> ring[i] != ring[j]
  }

  function Succ(ring: seq<nat>, i: nat): nat {
    if i + 1 < |ring| then i + 1 else 0
  }

  function Pred(ring: seq<nat>, i: nat): nat
    requires |ring| > 0
  {
    if i == 0 then |ring| - 1 else i - 1
  }

  ghost predicate LinkedAt(next: seq<nat>, prev: seq<nat>, ring: seq<nat>, i: nat)
    requires i < |ring|
  {
    ring[i] < |next| && ring[i] < |prev| && next[ring[i]] == ring[Succ(ring, i)] && prev[ring[i]] == ring[Pred(ring, i)]
  }

  /** The links form exactly this ring, forwards and backwards. */
  ghost predicate Linked(next: seq<nat>, prev: seq<nat>, ring: seq<nat>) {
    && |ring| > 0 && |next| == |prev| && Distinct(ring)
    && forall i :: 0 <= i < |ring| ==> LinkedAt(next, prev, ring, i)
  }

  function Without(ring: seq<nat>, k: nat): seq<nat>
    requires k < |ring|
  {
    ring[..k] + ring[k + 1..]
  }

  /** The ring after node `b` is put behind the head. */
  function Front(ring: seq<nat>, b: nat): seq<nat>
    requires |ring| > 0
  {
    [ring[0], b] + ring[1..]
  }

  lemma {:induction false} WithoutDistinct(ring: seq<nat>, k: nat)
    requires Distinct(ring) && k < |ring|
    ensures Distinct(Without(ring, k)) && ring[k] !in Without(ring, k)
    ensures forall b :: b in ring && b != ring[k] ==> b in Without(ring, k)
  {
    var g := Without(ring, k);
    forall i | 0 <= i < |g|
      ensures g[i] == ring[if i < k then i else i + 1]
    {
    }
    forall b | b in ring && b != ring[k]
      ensures b in g
    {
      var j :| 0 <= j < |ring| && ring[j] == b;
      assert g[if j < k then j else j - 1] == b;
    }
  }

  /** The two assignments that take node b out. */
  lemma {:induction false} UnlinkNode(next: seq<nat>, prev: seq<nat>, ring: seq<nat>, k: nat, n2: seq<nat>,
                                      p2: seq<nat>)
    requires Linked(next, prev, ring) && 0 < k < |ring|
    requires ring[k] < |next| && next[ring[k]] < |prev| && prev[ring[k]] < |next|
    requires p2 == prev[next[ring[k]] := prev[ring[k]]] && n2 == next[prev[ring[k]] := next[ring[k]]]
    ensures Linked(n2, p2, Without(ring, k))
  {
    var g := Without(ring, k);
    WithoutDistinct(ring, k);
    assert LinkedAt(next, prev, ring, k);
    assert ring[Succ(ring, k)] < |prev| && ring[Pred(ring, k)] < |next| by {
      assert LinkedAt(next, prev, ring, Succ(ring, k));
      assert LinkedAt(next, prev, ring, Pred(ring, k));
    }
    forall i | 0 <= i < |g|
      ensures LinkedAt(n2, p2, g, i)
    {
      var j := if i < k then i else i + 1;
      assert g[i] == ring[j];
      assert LinkedAt(next, prev, ring, j);
      UnlinkIndex(ring, k, i, j);
    }
  }

  /** Neighbours in the ring without node k. */
  lemma {:induction false} UnlinkIndex(ring: seq<nat>, k: nat, i: nat, j: nat)
    requires Distinct(ring) && 0 < k < |ring| && i < |ring| - 1 && j == if i < k then i else i + 1
    ensures |Without(ring, k)| == |ring| - 1
    ensures var g := Without(ring, k);
            && g[Succ(g, i)] == (if Succ(ring, j) == k then ring[Succ(ring, k)] else ring[Succ(ring, j)])
            && g[Pred(g, i)] == (if Pred(ring, j) == k then ring[Pred(ring, k)] else ring[Pred(ring, j)])
            && (ring[j] == ring[Pred(ring, k)] <==> Succ(ring, j) == k)
            && (ring[j] == ring[Succ(ring, k)] <==> Pred(ring, j) == k)
  {
  }

  /** The four assignments that put node b behind the head. */
  lemma {:induction false} PushNode(next: seq<nat>, prev: seq<nat>, ring: seq<nat>, b: nat, n2: seq<nat>, p2: seq<nat>)
    requires Linked(next, prev, ring) && b < |next| && b !in ring
    requires ring[0] < |next| && next[ring[0]] < |prev|
    requires n2 == next[b := next[ring[0]]][ring[0] := b] && p2 == prev[b := ring[0]][next[ring[0]] := b]
    ensures Linked(n2, p2, Front(ring, b))
  {
    var g := Front(ring, b);
    assert LinkedAt(next, prev, ring, 0);
    assert ring[Succ(ring, 0)] != b;
    forall i | 0 <= i < |g|
      ensures LinkedAt(n2, p2, g, i)
    {
      if i == 0 {
        assert g[Pred(g, 0)] == if |ring| == 1 then b else ring[|ring| - 1];
        assert LinkedAt(next, prev, ring, |ring| - 1);
        assert g[1] == b;
      } else if i == 1 {
        assert g[1] == b && g[Succ(g, 1)] == ring[Succ(ring, 0)];
      } else {
        assert LinkedAt(next, prev, ring, i - 1);
        assert g[i] == ring[i - 1] && g[Succ(g, i)] == ring[Succ(ring, i - 1)];
        assert g[Pred(g, i)] == if i == 2 then b else ring[i - 2];
      }
    }
  }
}
