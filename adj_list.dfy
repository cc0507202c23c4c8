/**
 The contents of one adjacency list: the (target, weight) pairs held by the
 nodes that follow the dummy head, in list order, and the search `edge`,
 `addEdge` and `delEdge` perform on it.
 */
module AdjList {
  import opened GraphSpec

  /** What one list node carries: the edge's target vertex and its weight. */
  datatype Arc = Arc(target: int, wt: real)

  /** The weight held by the first node whose target is `t`, or INFINITY. */
  function Find(arcs: seq<Arc>, t: int): (r: Float) {
    if arcs == [] then NoEdge
    else if arcs[0].target == t then Finite(arcs[0].wt)
    else Find(arcs[1..], t)
  }

  /** At most one node per target: one edge per ordered pair. */
  predicate DistinctTargets(arcs: seq<Arc>) {
    forall i, j :: 0 <= i < j < |arcs| ==> arcs[i].target != arcs[j].target
  }

  /** The search stops at the first node whose target is `t`. */
  lemma {:induction false} FindFirst(arcs: seq<Arc>, i: int, t: int)
    requires 0 <= i < |arcs| && arcs[i].target == t
    requires forall j :: 0 <= j < i ==> arcs[j].target != t
    ensures Find(arcs, t) == Finite(arcs[i].wt)
  {
    if i > 0 {
      FindFirst(arcs[1..], i - 1, t);
    }
  }

  /** The search answers INFINITY when no node has target `t`. */
  lemma {:induction false} FindAbsent(arcs: seq<Arc>, t: int)
    requires forall j :: 0 <= j < |arcs| ==> arcs[j].target != t
    ensures Find(arcs, t) == NoEdge
  {
    if arcs != [] {
      FindAbsent(arcs[1..], t);
    }
  }

  /** The search finds a weight exactly when some node has target `t`. */
  lemma {:induction false} FindPresent(arcs: seq<Arc>, t: int)
    ensures Find(arcs, t) != NoEdge <==> exists j :: 0 <= j < |arcs| && arcs[j].target == t
  {
    if arcs != [] && arcs[0].target != t {
      FindPresent(arcs[1..], t);
      if exists j :: 0 <= j < |arcs| && arcs[j].target == t {
        var j :| 0 <= j < |arcs| && arcs[j].target == t;
        assert arcs[1..][j - 1].target == t;
      }
    }
  }

  /** With distinct targets, every node's target leads the search to that node. */
  lemma FindDistinct(arcs: seq<Arc>, i: int)
    requires DistinctTargets(arcs) && 0 <= i < |arcs|
    ensures Find(arcs, arcs[i].target) == Finite(arcs[i].wt)
  {
    FindFirst(arcs, i, arcs[i].target);
  }

  /** Unlinking a node from a list with distinct targets keeps them distinct. */
  lemma RemoveDistinct(arcs: seq<Arc>, i: int)
    requires DistinctTargets(arcs) && 0 <= i < |arcs|
    ensures DistinctTargets(arcs[..i] + arcs[i + 1..])
  {
    var r := arcs[..i] + arcs[i + 1..];
    forall j, k | 0 <= j < k < |r| ensures r[j].target != r[k].target {
      var j', k' := if j < i then j else j + 1, if k < i then k else k + 1;
      assert r[j] == arcs[j'] && r[k] == arcs[k'];
    }
  }

  /** Unlinking a node from a list with distinct targets removes exactly that
      node's target from the search and keeps the targets distinct. */
  lemma {:induction false} FindRemove(arcs: seq<Arc>, i: int, u: int)
    requires DistinctTargets(arcs) && 0 <= i < |arcs|
    ensures DistinctTargets(arcs[..i] + arcs[i + 1..])
    ensures Find(arcs[..i] + arcs[i + 1..], u) == if u == arcs[i].target then NoEdge else Find(arcs, u)
  {
    RemoveDistinct(arcs, i);
    var r := arcs[..i] + arcs[i + 1..];
    if i == 0 {
      assert r == arcs[1..];
      if u == arcs[0].target {
        forall j | 0 <= j < |r| ensures r[j].target != u {
          assert r[j] == arcs[j + 1];
        }
        FindAbsent(r, u);
      }
    } else {
      var tail := arcs[1..];
      assert r[0] == arcs[0];
      assert r[1..] == tail[..i - 1] + tail[i..];
      assert DistinctTargets(tail) by {
        forall j, k | 0 <= j < k < |tail| ensures tail[j].target != tail[k].target {
          assert tail[j] == arcs[j + 1] && tail[k] == arcs[k + 1];
        }
      }
      assert arcs[0].target != arcs[i].target;
      FindRemove(tail, i - 1, u);
    }
  }

  /** The lists `A` of a graph with `n` vertices hold exactly the edge map `E`:
      one list per vertex, distinct in-range targets in each, and searching
      list s for t gives what `E` stores for (s, t). */
  ghost predicate Coupled(n: int, E: EdgeMap, A: seq<seq<Arc>>) {
    |A| == n &&
    (forall v :: 0 <= v < n ==> DistinctTargets(A[v])) &&
    (forall v, i :: 0 <= v < n && 0 <= i < |A[v]| ==> InRange(n, A[v][i].target)) &&
    (forall s, t :: 0 <= s < n && 0 <= t < n ==> Find(A[s], t) == Stored(E, s, t))
  }

  /** Empty lists hold the graph without edges. */
  lemma CoupledEmpty(n: int)
    requires n >= 1
    ensures Coupled(n, map[], seq(n, _ => []))
  {
  }

  /** Putting a node for a new edge s -> t in front of list s adds exactly that edge. */
  lemma CoupledInsert(n: int, E: EdgeMap, A: seq<seq<Arc>>, s: int, t: int, w: real)
    requires Coupled(n, E, A) && 0 <= s < n && 0 <= t < n && (s, t) !in E
    ensures Coupled(n, E[(s, t) := w], A[s := [Arc(t, w)] + A[s]])
  {
    var arcs := A[s];
    var arcs' := [Arc(t, w)] + arcs;
    var A': seq<seq<Arc>>, E': EdgeMap := A[s := arcs'], E[(s, t) := w];
    FindPresent(arcs, t);
    assert arcs'[1..] == arcs;
    forall i, j | 0 <= i < j < |arcs'| ensures arcs'[i].target != arcs'[j].target {
      if i > 0 {
        assert arcs'[i] == arcs[i - 1];
      }
      assert arcs'[j] == arcs[j - 1];
    }
    forall v, i | 0 <= v < n && 0 <= i < |A'[v]| ensures InRange(n, A'[v][i].target) {
      if v == s && i > 0 {
        assert A'[v][i] == arcs[i - 1];
      }
    }
    forall u, v | 0 <= u < n && 0 <= v < n ensures Find(A'[u], v) == Stored(E', u, v) {
      if u == s {
        assert Find(arcs', v) == if v == t then Finite(w) else Find(arcs, v);
      }
    }
  }

  /** Unlinking the node at position i of list s removes exactly the edge from s
      to that node's target, which was an edge before. */
  lemma CoupledRemove(n: int, E: EdgeMap, A: seq<seq<Arc>>, s: int, i: int)
    requires Coupled(n, E, A) && 0 <= s < n && 0 <= i < |A[s]|
    ensures (s, A[s][i].target) in E
    ensures Coupled(n, E - {(s, A[s][i].target)}, A[s := A[s][..i] + A[s][i + 1..]])
  {
    var arcs, t := A[s], A[s][i].target;
    var arcs' := arcs[..i] + arcs[i + 1..];
    var A': seq<seq<Arc>>, E': EdgeMap := A[s := arcs'], E - {(s, t)};
    FindDistinct(arcs, i);
    assert InRange(n, t);
    forall v, k | 0 <= v < n && 0 <= k < |A'[v]| ensures InRange(n, A'[v][k].target) {
      if v == s {
        assert arcs'[k] == if k < i then arcs[k] else arcs[k + 1];
      }
    }
    forall u, v | 0 <= u < n && 0 <= v < n ensures Find(A'[u], v) == Stored(E', u, v) {
      if u == s {
        FindRemove(arcs, i, v);
      }
    }
    FindRemove(arcs, i, t);
  }
}
