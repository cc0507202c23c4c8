/**
 The graph object: a vertex count and a representation tag fixed at
 construction, and either a flat `numVerts * numVerts` matrix of weights or an
 array of singly linked adjacency lists, each starting with a dummy node.
 Both representations refine the abstract edge map `Edges` of GraphSpec.
 */
module WeightedGraph {
  import opened GraphSpec
  import opened AdjList

  /** One node of an adjacency list (`struct eNode`). The ghost fields record
      which vertex's list the node belongs to and whether it is that list's
      dummy head. */
  class ENode {
    var wt: real
    var target: int
    var next: ENode?
    ghost const home: int
    ghost const dummy: bool

    constructor (wt: real, target: int, next: ENode?, ghost home: int, ghost dummy: bool)
      ensures this.wt == wt && this.target == target && this.next == next
      ensures this.home == home && this.dummy == dummy
    {
      this.wt := wt;
      this.target := target;
      this.next := next;
      this.home := home;
      this.dummy := dummy;
    }
  }

  /** The cell of the flat matrix that holds the edge s -> t. */
  function Idx(n: int, s: int, t: int): (k: int)
    requires 0 <= s < n && 0 <= t < n
    ensures 0 <= k < n * n
  {
    CellInRange(n, s, t);
    s * n + t
  }

  lemma CellInRange(n: int, s: int, t: int)
    requires 0 <= s < n && 0 <= t < n
    ensures 0 <= s * n + t < n * n
  {
    assert s * n <= (n - 1) * n;
  }

  /** Distinct vertex pairs have distinct cells. */
  lemma IdxDistinct(n: int, s1: int, t1: int, s2: int, t2: int)
    requires 0 <= s1 < n && 0 <= t1 < n && 0 <= s2 < n && 0 <= t2 < n
    requires (s1, t1) != (s2, t2)
    ensures Idx(n, s1, t1) != Idx(n, s2, t2)
  {
    if s1 < s2 {
      RowsApart(n, s1, t1, s2, t2);
    } else if s2 < s1 {
      RowsApart(n, s2, t2, s1, t1);
    }
  }

  /** Every cell of an earlier row comes before every cell of a later row. */
  lemma RowsApart(n: int, s1: int, t1: int, s2: int, t2: int)
    requires 0 <= s1 < s2 < n && 0 <= t1 < n && 0 <= t2 < n
    ensures s1 * n + t1 < s2 * n + t2
  {
    MulMonotone(s1 + 1, s2, n);
    assert (s1 + 1) * n == s1 * n + n;
  }

  lemma {:induction false} MulMonotone(a: int, b: int, n: int)
    requires 0 <= a <= b && n >= 0
    ensures a * n <= b * n
  {
    if a < b {
      MulMonotone(a, b - 1, n);
      assert b * n == (b - 1) * n + n;
    }
  }

  /** A fresh n*n matrix with every cell INFINITY: no edges. */
  method NewMatrix(n: int) returns (m: array<Float>)
    requires n >= 1
    ensures fresh(m) && m.Length == n * n
    ensures forall k :: 0 <= k < m.Length ==> m[k] == NoEdge
  {
    m := new Float[n * n];
    var k := 0;
    while k < m.Length
      invariant 0 <= k <= m.Length
      invariant forall j :: 0 <= j < k ==> m[j] == NoEdge
    {
      m[k] := NoEdge;
      k := k + 1;
    }
  }

  /** A fresh array of n empty adjacency lists: entry v is a fresh dummy node
      of list v with no successor. */
  method NewLists(n: int) returns (heads: array<ENode?>, ghost hs: seq<ENode>, ghost cells: set<ENode>)
    requires n >= 1
    ensures fresh(heads) && fresh(cells)
    ensures Lists(heads, hs, seq(n, _ => []), seq(n, _ => []), cells, n)
  {
    heads := new ENode?[n];
    hs, cells := [], {};
    var v := 0;
    while v < n
      invariant 0 <= v <= n && |hs| == v && fresh(cells)
      invariant forall u :: 0 <= u < v ==>
        heads[u] == hs[u] && hs[u] in cells && hs[u].next == null && hs[u].dummy && hs[u].home == u
    {
      var head := new ENode(0.0, 0, null, v, true);
      heads[v] := head;
      hs, cells := hs + [head], cells + {head};
      v := v + 1;
    }
    ghost var none: seq<seq<ENode>>, arcs: seq<seq<Arc>> := seq(n, _ => []), seq(n, _ => []);
    assert forall u :: 0 <= u < n ==> Seg(none[u], arcs[u], null);
  }

  /** `nodes` are linked in order by `next`, the last one to `end`, and their
      `target` and `wt` fields hold `arcs`. */
  ghost predicate Seg(nodes: seq<ENode>, arcs: seq<Arc>, end: ENode?)
    reads nodes
  {
    |nodes| == |arcs| &&
    (forall i :: 0 <= i < |nodes| ==> nodes[i].target == arcs[i].target && nodes[i].wt == arcs[i].wt) &&
    (forall i, j {:trigger nodes[i], nodes[j]} :: 0 <= i && j == i + 1 && j < |nodes| ==> nodes[i].next == nodes[j]) &&
    (nodes != [] ==> nodes[|nodes| - 1].next == end)
  }

  /** One adjacency list: the dummy `head` followed by the null-terminated
      segment `nodes` holding `arcs`. */
  ghost predicate ListAt(head: ENode, nodes: seq<ENode>, arcs: seq<Arc>)
    reads head, nodes
  {
    head.next == FirstOr(nodes, null) && Seg(nodes, arcs, null)
  }

  /** The node a `next` field must point to so that `nodes` follow: the first of
      them, or `end` if there are none. */
  function FirstOr(nodes: seq<ENode>, end: ENode?): (r: ENode?) {
    if nodes == [] then end else nodes[0]
  }

  /** A node holding `arc` and pointing at the start of a segment extends it
      at the front. */
  lemma SegCons(node: ENode, arc: Arc, q: seq<ENode>, aq: seq<Arc>, end: ENode?)
    requires node.target == arc.target && node.wt == arc.wt && node.next == FirstOr(q, end)
    requires Seg(q, aq, end)
    ensures Seg([node] + q, [arc] + aq, end)
  {
    var r, ar := [node] + q, [arc] + aq;
    forall i | 0 < i < |r| ensures r[i] == q[i - 1] && ar[i] == aq[i - 1] { }
    forall i, j | 0 <= i && j == i + 1 && j < |r| ensures r[i].next == r[j] {
      if i > 0 {
        assert r[i] == q[i - 1] && r[j] == q[j - 1];
      }
    }
    if q != [] {
      assert r[|r| - 1] == q[|q| - 1];
    }
  }

  /** Every vertex v has a list in `a`: a[v] is its dummy head H[v],
      followed by the null-terminated segment N[v] holding A[v]. Every node is
      one of `cells` and is marked with the list it belongs to; nodes of one
      list are told apart by their targets (see `Coupled`). */
  ghost predicate Lists(a: array<ENode?>, H: seq<ENode>, N: seq<seq<ENode>>, A: seq<seq<Arc>>, cells: set<ENode>, n: int)
    reads a, cells
  {
    a.Length == n && |H| == n && |N| == n && |A| == n &&
    (forall v :: 0 <= v < n ==> a[v] == H[v] && H[v] in cells && H[v].dummy && H[v].home == v) &&
    (forall v, i :: 0 <= v < n && 0 <= i < |N[v]| ==> N[v][i] in cells && !N[v][i].dummy && N[v][i].home == v) &&
    (forall v :: 0 <= v < n ==> ListAt(H[v], N[v], A[v]))
  }

  class Graph {
    /** MATRIX or LIST; fixed for the graph's lifetime. */
    const repType: RepType
    /** The number of vertices; fixed for the graph's lifetime. */
    const numVerts: int
    /** The adjacency matrix, row by row; used when repType == Matrix. */
    var adjM: array?<Float>
    /** The adjacency lists, one per vertex, each starting with a dummy node; used when repType == List. */
    var aList: array?<ENode?>

    /** The abstract graph: the weight of every edge, by (source, target). */
    ghost var Edges: EdgeMap
    /** Heads[v] is the dummy node that starts v's list. */
    ghost var Heads: seq<ENode>
    /** Nodes[v] are the nodes of v's list after the dummy, in list order. */
    ghost var Nodes: seq<seq<ENode>>
    /** Arcs[v][i] is what the node Nodes[v][i] holds. */
    ghost var Arcs: seq<seq<Arc>>
    /** The list nodes, dummy heads included. */
    ghost var Cells: set<ENode>
    /** The objects the representation is made of. */
    ghost var Repr: set<object>

    ghost predicate Valid()
      reads this, Repr
      ensures Valid() ==> this in Repr
    {
      this in Repr && WellFormed(numVerts, Edges) &&
      (repType == Matrix ==> MatrixValid()) &&
      (repType == List ==> ListValid())
    }

    /** The matrix has one cell per ordered pair, holding the pair's weight or INFINITY. */
    ghost predicate MatrixValid()
      reads this, Repr
    {
      numVerts >= 1 &&
      adjM != null && adjM in Repr && adjM.Length == numVerts * numVerts &&
      forall s, t :: 0 <= s < numVerts && 0 <= t < numVerts ==>
        adjM[Idx(numVerts, s, t)] == Stored(Edges, s, t)
    }

    /** The lists are well formed (see `Lists`), their nodes belong to the
        graph, and they hold exactly the edges. */
    ghost predicate ListValid()
      reads this, Repr
    {
      aList != null && aList in Repr && Cells <= Repr &&
      Lists(aList, Heads, Nodes, Arcs, Cells, numVerts) &&
      Coupled(numVerts, Edges, Arcs)
    }

    /** makeGraph(n, rep): a graph with n vertices and no edges. */
    constructor (n: int, rep: RepType)
      requires n >= 1
      ensures Valid() && fresh(Repr)
      ensures numVerts == n && repType == rep && Edges == map[]
    {
      numVerts := n;
      repType := rep;
      Edges := map[];
      ghost var objs: set<object>;
      if rep == Matrix {
        var m := NewMatrix(n);
        adjM, aList := m, null;
        Heads, Nodes, Arcs := [], [], [];
        objs := {m};
      } else {
        var heads, hs, cells := NewLists(n);
        adjM, aList := null, heads;
        Heads, Nodes, Arcs, Cells := hs, seq(n, _ => []), seq(n, _ => []), cells;
        objs := {heads} + cells;
      }
      new;
      Repr := {this} + objs;
      if rep == List {
        CoupledEmpty(n);
      }
    }

    /** numVerts(G). */
    function NumVerts(): (r: int)
      requires Valid()
      reads this, Repr
      ensures r >= 1 && forall s, t :: EdgeValue(numVerts, Edges, s, t) == OutOfRange <==> !(InRange(r, s) && InRange(r, t))
    {
      numVerts
    }

    /** Walks s's list from the node after the dummy head to the first node
        whose target is t; answers its weight, or INFINITY at the end of the list. */
    method LookupList(s: int, t: int) returns (r: Float)
      requires Valid() && repType == List && 0 <= s < numVerts
      ensures r == Find(Arcs[s], t)
    {
      var cur := aList[s].next;
      ghost var i := 0;
      while cur != null && cur.target != t
        invariant 0 <= i <= |Arcs[s]|
        invariant cur == if i < |Nodes[s]| then Nodes[s][i] else null
        invariant forall j :: 0 <= j < i ==> Arcs[s][j].target != t
        decreases |Arcs[s]| - i
      {
        cur := cur.next;
        i := i + 1;
      }
      if cur == null {
        FindAbsent(Arcs[s], t);
        r := NoEdge;
      } else {
        FindFirst(Arcs[s], i, t);
        r := Finite(cur.wt);
      }
    }

    /** edge(G, s, t): the weight of the edge s -> t, INFINITY if there is none,
        -1.0 if s or t is out of range; the same answer for both representations. */
    method Edge(s: int, t: int) returns (r: Float)
      requires Valid()
      ensures r == EdgeValue(numVerts, Edges, s, t)
    {
      if !(0 <= s < numVerts && 0 <= t < numVerts) {
        return OutOfRange;
      }
      if repType == Matrix {
        r := adjM[Idx(numVerts, s, t)];
      } else {
        r := LookupList(s, t);
      }
    }

    /** addEdge(G, s, t, w): adds the edge and answers OK when s and t are
        vertices and there was no edge s -> t; otherwise changes nothing and
        answers ERROR. */
    method AddEdge(s: int, t: int, w: real) returns (status: Status)
      requires Valid() && w >= 0.0
      modifies Repr
      ensures Valid() && fresh(Repr - old(Repr))
      ensures (status, Edges) == AddEdgeSpec(numVerts, old(Edges), s, t, w)
    {
      if !(0 <= s < numVerts && 0 <= t < numVerts) {
        return Error;
      }
      var present := Edge(s, t);
      if present != NoEdge {
        return Error;
      }
      if repType == Matrix {
        MatrixSet(s, t, Finite(w));
        Edges := Edges[(s, t) := w];
      } else {
        ListInsert(s, t, w);
      }
      status := Ok;
    }

    /** Overwrites the cell of (s, t); every other cell keeps its value. */
    method MatrixSet(s: int, t: int, x: Float)
      requires Valid() && repType == Matrix && 0 <= s < numVerts && 0 <= t < numVerts
      modifies adjM
      ensures adjM[Idx(numVerts, s, t)] == x
      ensures forall u, v :: 0 <= u < numVerts && 0 <= v < numVerts && (u, v) != (s, t) ==>
        adjM[Idx(numVerts, u, v)] == old(adjM[Idx(numVerts, u, v)])
    {
      adjM[Idx(numVerts, s, t)] := x;
      forall u, v | 0 <= u < numVerts && 0 <= v < numVerts && (u, v) != (s, t)
        ensures adjM[Idx(numVerts, u, v)] == old(adjM[Idx(numVerts, u, v)])
      {
        IdxDistinct(numVerts, u, v, s, t);
      }
    }

    /** Linking the fresh `node` for a new edge from s behind s's dummy head,
        and recording it in the ghost state, keeps the graph valid. */
    twostate lemma InsertKeepsValid(s: int, new node: ENode)
      requires old(Valid()) && repType == List && 0 <= s < numVerts && InRange(numVerts, node.target) && node.wt >= 0.0
      requires (s, node.target) !in old(Edges) && !old(allocated(node)) && node.home == s && !node.dummy
      requires aList == old(aList) && Heads == old(Heads) && unchanged(aList)
      requires unchanged(old(Cells) - {Heads[s]}) && node.next == old(Heads[s].next) && Heads[s].next == node
      requires Nodes == old(Nodes)[s := [node] + old(Nodes[s])]
      requires Arcs == old(Arcs)[s := [Arc(node.target, node.wt)] + old(Arcs[s])]
      requires Edges == old(Edges)[(s, node.target) := node.wt]
      requires Cells == old(Cells) + {node} && Repr == old(Repr) + {node}
      ensures Valid()
    {
      var t, w := node.target, node.wt;
      ghost var ns, arcs := old(Nodes[s]), old(Arcs[s]);
      assert old(ListAt(Heads[s], ns, arcs));
      assert Seg(ns, arcs, null) by {
        assert forall y :: y in ns ==> y in old(Cells) - {Heads[s]};
      }
      SegCons(node, Arc(t, w), ns, arcs, null);
      forall v | 0 <= v < numVerts && v != s ensures ListAt(Heads[v], Nodes[v], Arcs[v]) {
        assert old(ListAt(Heads[v], Nodes[v], Arcs[v]));
        assert forall y :: y in Nodes[v] ==> y in old(Cells) - {Heads[s]};
        assert Heads[v] in old(Cells) - {Heads[s]};
      }
      CoupledInsert(numVerts, old(Edges), old(Arcs), s, t, w);
    }

    /** Links a new node for s -> t right behind s's dummy head. */
    method ListInsert(s: int, t: int, w: real)
      requires Valid() && repType == List && 0 <= s < numVerts && 0 <= t < numVerts && w >= 0.0
      requires (s, t) !in Edges
      modifies Repr
      ensures Valid() && fresh(Repr - old(Repr))
      ensures Edges == old(Edges)[(s, t) := w]
    {
      var head := aList[s];
      var node := new ENode(w, t, head.next, s, false);
      head.next := node;
      Nodes := Nodes[s := [node] + Nodes[s]];
      Arcs := Arcs[s := [Arc(t, w)] + Arcs[s]];
      Edges := Edges[(s, t) := w];
      Cells, Repr := Cells + {node}, Repr + {node};
      InsertKeepsValid(s, node);
    }

    /** delEdge(G, s, t): removes the edge and answers OK when there was an
        edge s -> t; otherwise changes nothing and answers ERROR. */
    method DelEdge(s: int, t: int) returns (status: Status)
      requires Valid()
      modifies Repr
      ensures Valid() && fresh(Repr - old(Repr))
      ensures (status, Edges) == DelEdgeSpec(old(Edges), s, t)
    {
      if !(0 <= s < numVerts && 0 <= t < numVerts) {
        return Error;
      }
      if repType == Matrix {
        if adjM[Idx(numVerts, s, t)] == NoEdge {
          return Error;
        }
        MatrixSet(s, t, NoEdge);
        Edges := Edges - {(s, t)};
        status := Ok;
      } else {
        status := ListRemove(s, t);
      }
    }

    /** Unlinking the node at position i of a list, by pointing its
        predecessor `prev` (the list's dummy head when i == 0) past it, and
        recording that in the ghost state, keeps the graph valid. The list is
        the one `prev` belongs to. */
    twostate lemma RemoveKeepsValid(new prev: ENode, i: int)
      requires old(allocated(prev)) && old(Valid()) && repType == List
      requires 0 <= prev.home < numVerts && 0 <= i < old(|Nodes[prev.home]|)
      requires aList == old(aList) && Heads == old(Heads) && unchanged(aList)
      requires prev == if i == 0 then Heads[prev.home] else old(Nodes[prev.home][i - 1])
      requires unchanged(old(Cells) - {prev})
      requires prev.next == old(Nodes[prev.home][i].next) && prev.target == old(prev.target) && prev.wt == old(prev.wt)
      requires Nodes == old(Nodes[prev.home := Nodes[prev.home][..i] + Nodes[prev.home][i + 1..]])
      requires Arcs == old(Arcs[prev.home := Arcs[prev.home][..i] + Arcs[prev.home][i + 1..]])
      requires Edges == old(Edges - {(prev.home, Arcs[prev.home][i].target)})
      requires Cells == old(Cells) && Repr == old(Repr)
      ensures Valid()
    {
      var s := prev.home;
      UnlinkKeepsList(prev, i);
      forall v | 0 <= v < numVerts && v != s ensures ListAt(Heads[v], Nodes[v], Arcs[v]) {
        assert old(ListAt(Heads[v], Nodes[v], Arcs[v]));
        assert forall y :: y in Nodes[v] ==> y in old(Cells) - {prev};
        assert Heads[v] in old(Cells) - {prev};
      }
      CoupledRemove(numVerts, old(Edges), old(Arcs), s, i);
    }

    /** The list `prev` belongs to, with its node at position i unlinked, is
        still its dummy head followed by a null-terminated segment holding the
        list's arcs without the removed one. */
    twostate lemma UnlinkKeepsList(new prev: ENode, i: int)
      requires old(allocated(prev)) && old(Valid()) && repType == List
      requires 0 <= prev.home < numVerts && 0 <= i < old(|Nodes[prev.home]|)
      requires Heads == old(Heads)
      requires prev == if i == 0 then Heads[prev.home] else old(Nodes[prev.home][i - 1])
      requires unchanged(old(Cells) - {prev})
      requires prev.next == old(Nodes[prev.home][i].next) && prev.target == old(prev.target) && prev.wt == old(prev.wt)
      requires Nodes == old(Nodes[prev.home := Nodes[prev.home][..i] + Nodes[prev.home][i + 1..]])
      requires Arcs == old(Arcs[prev.home := Arcs[prev.home][..i] + Arcs[prev.home][i + 1..]])
      ensures ListAt(Heads[prev.home], Nodes[prev.home], Arcs[prev.home])
    {
      var s := prev.home;
      ghost var ns, arcs := old(Nodes[s]), old(Arcs[s]);
      ghost var ns', arcs' := Nodes[s], Arcs[s];
      assert old(ListAt(Heads[s], ns, arcs));
      assert DistinctTargets(arcs);
      forall k | 0 <= k < |ns| && k != i - 1 ensures ns[k] != prev {
        if i > 0 {
          assert old(ns[k].target) == arcs[k].target != arcs[i - 1].target == old(prev.target);
        }
      }
      forall k | 0 <= k < |ns| && k != i - 1
        ensures ns[k].next == old(ns[k].next) && ns[k].target == old(ns[k].target) && ns[k].wt == old(ns[k].wt)
      {
        assert ns[k] in old(Cells) - {prev};
      }
      assert |ns'| == |ns| - 1;
      forall k | 0 <= k < |ns'| ensures ns'[k] == if k < i then ns[k] else ns[k + 1] { }
      forall k | 0 <= k < |ns'| ensures ns'[k].target == arcs'[k].target && ns'[k].wt == arcs'[k].wt {
        assert arcs'[k] == if k < i then arcs[k] else arcs[k + 1];
      }
      forall k, j | 0 <= k && j == k + 1 && j < |ns'| ensures ns'[k].next == ns'[j] {
        if j < i {
          assert old(ns[k].next) == ns[j];
        } else if j == i {
          assert old(ns[i].next) == ns[i + 1];
        } else {
          assert old(ns[k + 1].next) == ns[k + 2];
        }
      }
      if ns' != [] {
        var last := |ns'| - 1;
        if last < i {
          assert old(ns[i].next) == null;
        } else {
          assert old(ns[last + 1].next) == null;
        }
      }
      if i > 0 {
        assert Heads[s] != prev;
        assert Heads[s] in old(Cells) - {prev};
      }
    }

    /** Walks s's list keeping the previous node, and unlinks the node for
        s -> t if there is one. */
    method ListRemove(s: int, t: int) returns (status: Status)
      requires Valid() && repType == List && 0 <= s < numVerts && 0 <= t < numVerts
      modifies Repr
      ensures Valid() && Repr == old(Repr)
      ensures (status, Edges) == DelEdgeSpec(old(Edges), s, t)
    {
      var prev := aList[s];
      var cur := prev.next;
      ghost var i := 0;
      while cur != null && cur.target != t
        invariant 0 <= i <= |Arcs[s]|
        invariant prev == if i == 0 then Heads[s] else Nodes[s][i - 1]
        invariant cur == if i < |Nodes[s]| then Nodes[s][i] else null
        invariant forall j :: 0 <= j < i ==> Arcs[s][j].target != t
        decreases |Arcs[s]| - i
      {
        prev := cur;
        cur := cur.next;
        i := i + 1;
      }
      if cur == null {
        FindAbsent(Arcs[s], t);
        return Error;
      }
      FindFirst(Arcs[s], i, t);
      prev.next := cur.next;
      Nodes := Nodes[s := Nodes[s][..i] + Nodes[s][i + 1..]];
      Arcs := Arcs[s := Arcs[s][..i] + Arcs[s][i + 1..]];
      Edges := Edges - {(s, t)};
      RemoveKeepsValid(prev, i);
      status := Ok;
    }

    /** successors(G, s): a fresh array of the targets of s's edges, each once,
        in unspecified order, followed by -1. */
    method Successors(s: int) returns (a: array<int>)
      requires Valid() && 0 <= s < numVerts
      ensures fresh(a)
      ensures Enumerates(a[..], OutSet(numVerts, Edges, s))
      ensures a.Length - 1 == |OutSet(numVerts, Edges, s)|
    {
      var xs: seq<int> := [];
      if repType == Matrix {
        var t := 0;
        while t < numVerts
          invariant 0 <= t <= numVerts && NoDup(xs)
          invariant forall v :: v in xs <==> 0 <= v < t && (s, v) in Edges
        {
          if adjM[Idx(numVerts, s, t)] != NoEdge {
            xs := xs + [t];
          }
          t := t + 1;
        }
      } else {
        var cur := aList[s].next;
        ghost var i := 0;
        while cur != null
          invariant 0 <= i <= |Arcs[s]|
          invariant cur == if i < |Nodes[s]| then Nodes[s][i] else null
          invariant |xs| == i && forall j :: 0 <= j < i ==> xs[j] == Arcs[s][j].target
          decreases |Arcs[s]| - i
        {
          xs := xs + [cur.target];
          cur := cur.next;
          i := i + 1;
        }
        forall v ensures v in xs <==> 0 <= v < numVerts && (s, v) in Edges {
          FindPresent(Arcs[s], v);
        }
      }
      forall k | 0 <= k < |xs| ensures xs[k] >= 0 {
        assert xs[k] in xs;
      }
      TerminatedEnumerates(xs, OutSet(numVerts, Edges, s));
      a := Terminated(xs);
    }

    /** predecessors(G, t): a fresh array of the sources of the edges into t,
        each once, in unspecified order, followed by -1. With lists this scans
        every vertex's list, as there is no reverse index. */
    method Predecessors(t: int) returns (a: array<int>)
      requires Valid() && 0 <= t < numVerts
      ensures fresh(a)
      ensures Enumerates(a[..], InSet(numVerts, Edges, t))
      ensures a.Length - 1 == |InSet(numVerts, Edges, t)|
    {
      var xs: seq<int> := [];
      var u := 0;
      while u < numVerts
        invariant 0 <= u <= numVerts && NoDup(xs)
        invariant forall v :: v in xs <==> 0 <= v < u && (v, t) in Edges
      {
        var cell: Float;
        if repType == Matrix {
          cell := adjM[Idx(numVerts, u, t)];
        } else {
          cell := LookupList(u, t);
        }
        if cell != NoEdge {
          xs := xs + [u];
        }
        u := u + 1;
      }
      forall k | 0 <= k < |xs| ensures xs[k] >= 0 {
        assert xs[k] in xs;
      }
      TerminatedEnumerates(xs, InSet(numVerts, Edges, t));
      a := Terminated(xs);
    }
  }

  /** A fresh array holding xs and then the end marker -1. */
  method Terminated(xs: seq<int>) returns (a: array<int>)
    ensures fresh(a) && a[..] == xs + [EndOfSeq]
  {
    a := new int[|xs| + 1];
    var i := 0;
    while i < |xs|
      invariant 0 <= i <= |xs|
      invariant forall j :: 0 <= j < i ==> a[j] == xs[j]
    {
      a[i] := xs[i];
      i := i + 1;
    }
    a[|xs|] := EndOfSeq;
  }

  /** Every edge of `sub` is an edge of `full`, with the same weight. */
  ghost predicate SubGraph(sub: EdgeMap, full: EdgeMap) {
    forall p :: p in sub ==> p in full && sub[p] == full[p]
  }

  /** Every edge of `full` leaving a vertex below `s` is an edge of `part`. */
  ghost predicate CopiedBelow(full: EdgeMap, part: EdgeMap, s: int) {
    forall p :: p in full && p.0 < s ==> p in part
  }

  /** cloneGraph(G, rep): a new, independent graph in representation rep with
      the same vertices and the same edges as g; g itself is not changed. */
  method CloneGraph(g: Graph, rep: RepType) returns (h: Graph)
    requires g.Valid()
    ensures h.Valid() && fresh(h.Repr)
    ensures h.repType == rep && h.numVerts == g.numVerts && h.Edges == g.Edges
  {
    var n := g.numVerts;
    h := new Graph(n, rep);
    var s := 0;
    while s < n
      invariant 0 <= s <= n
      invariant h.Valid() && fresh(h.Repr) && h.repType == rep && h.numVerts == n
      invariant SubGraph(h.Edges, g.Edges) && CopiedBelow(g.Edges, h.Edges, s)
    {
      CopyRow(g, h, s);
      s := s + 1;
    }
  }

  /** Adds to h every edge of g leaving s, reading g's row or list for s. */
  method CopyRow(g: Graph, h: Graph, s: int)
    requires g.Valid() && h.Valid() && g.Repr !! h.Repr && h.numVerts == g.numVerts && 0 <= s < g.numVerts
    requires SubGraph(h.Edges, g.Edges) && CopiedBelow(g.Edges, h.Edges, s)
    modifies h.Repr
    ensures h.Valid() && fresh(h.Repr - old(h.Repr))
    ensures SubGraph(h.Edges, g.Edges) && CopiedBelow(g.Edges, h.Edges, s + 1)
  {
    if g.repType == Matrix {
      CopyMatrixRow(g, h, s);
    } else {
      CopyListRow(g, h, s);
    }
  }

  /** Adds to h the edges of g's matrix row s, cell by cell. */
  method CopyMatrixRow(g: Graph, h: Graph, s: int)
    requires g.Valid() && g.repType == Matrix && h.Valid() && g.Repr !! h.Repr
    requires h.numVerts == g.numVerts && 0 <= s < g.numVerts
    requires SubGraph(h.Edges, g.Edges) && CopiedBelow(g.Edges, h.Edges, s)
    modifies h.Repr
    ensures h.Valid() && fresh(h.Repr - old(h.Repr))
    ensures SubGraph(h.Edges, g.Edges) && CopiedBelow(g.Edges, h.Edges, s + 1)
  {
    var n := g.numVerts;
    var t := 0;
    while t < n
      invariant 0 <= t <= n
      invariant h.Valid() && fresh(h.Repr - old(h.Repr))
      invariant SubGraph(h.Edges, g.Edges) && CopiedBelow(g.Edges, h.Edges, s)
      invariant forall u :: 0 <= u < t && (s, u) in g.Edges ==> (s, u) in h.Edges
    {
      var cell := g.adjM[Idx(n, s, t)];
      if cell != NoEdge {
        var _ := h.AddEdge(s, t, cell.val);
      }
      t := t + 1;
    }
  }

  /** Adds to h the edges held by g's list for s, node by node. */
  method CopyListRow(g: Graph, h: Graph, s: int)
    requires g.Valid() && g.repType == List && h.Valid() && g.Repr !! h.Repr
    requires h.numVerts == g.numVerts && 0 <= s < g.numVerts
    requires SubGraph(h.Edges, g.Edges) && CopiedBelow(g.Edges, h.Edges, s)
    modifies h.Repr
    ensures h.Valid() && fresh(h.Repr - old(h.Repr))
    ensures SubGraph(h.Edges, g.Edges) && CopiedBelow(g.Edges, h.Edges, s + 1)
  {
    var cur := g.aList[s].next;
    ghost var i := 0;
    while cur != null
      invariant 0 <= i <= |g.Arcs[s]|
      invariant cur == if i < |g.Nodes[s]| then g.Nodes[s][i] else null
      invariant h.Valid() && fresh(h.Repr - old(h.Repr))
      invariant SubGraph(h.Edges, g.Edges) && CopiedBelow(g.Edges, h.Edges, s)
      invariant forall j :: 0 <= j < i ==> (s, g.Arcs[s][j].target) in h.Edges
      decreases |g.Arcs[s]| - i
    {
      FindDistinct(g.Arcs[s], i);
      var _ := h.AddEdge(s, cur.target, cur.wt);
      cur := cur.next;
      i := i + 1;
    }
    forall u | (s, u) in g.Edges ensures (s, u) in h.Edges {
      FindPresent(g.Arcs[s], u);
    }
  }
}
