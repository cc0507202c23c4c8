/**
 The abstract view of a weighted directed graph: a fixed vertex count `n`
 and a finite map from ordered vertex pairs to non-negative weights. Both
 concrete representations (adjacency matrix and adjacency lists) refine this
 view, and every query and mutation of the interface is specified here on it.
 */
module GraphSpec {

  /** The `float` values the interface passes around: a finite number or INFINITY.
      No arithmetic is done on weights; they are only stored, compared and returned. */
  datatype Float = Finite(val: real) | Infinity

  /** The representation tag (MATRIX = 0, LIST = 1). */
  datatype RepType = Matrix | List

  /** The status code of the mutations (OK = 0, ERROR = 1). */
  datatype Status = Ok | Error

  /** Returned by `edge` when there is no edge: INFINITY. */
  const NoEdge: Float := Infinity

  /** Returned by `edge` when an endpoint is out of range: -1.0. */
  const OutOfRange: Float := Finite(-1.0)

  /** The entry that ends the arrays built by `successors` and `predecessors`. */
  const EndOfSeq: int := -1

  /** Edges by (source, target); at most one weight per ordered pair. */
  type EdgeMap = map<(int, int), real>

  predicate InRange(n: int, v: int) {
    0 <= v < n
  }

  /** A graph over vertices 0 .. n-1: at least one vertex, every edge between
      vertices of the graph, every weight non-negative. */
  ghost predicate WellFormed(n: int, E: EdgeMap) {
    n >= 1 &&
    forall p :: p in E ==> InRange(n, p.0) && InRange(n, p.1) && E[p] >= 0.0
  }

  /** What an in-range cell holds: the edge's weight, or INFINITY if there is none. */
  function Stored(E: EdgeMap, s: int, t: int): (r: Float) {
    if (s, t) in E then Finite(E[(s, t)]) else NoEdge
  }

  /** The answer of `edge(G, s, t)`. */
  function EdgeValue(n: int, E: EdgeMap, s: int, t: int): (r: Float) {
    if InRange(n, s) && InRange(n, t) then Stored(E, s, t) else OutOfRange
  }

  /** The outcome of `addEdge(G, s, t, w)`: the status and the new edge map. */
  function AddEdgeSpec(n: int, E: EdgeMap, s: int, t: int, w: real): (r: (Status, EdgeMap)) {
    if InRange(n, s) && InRange(n, t) && (s, t) !in E then (Ok, E[(s, t) := w]) else (Error, E)
  }

  /** The outcome of `delEdge(G, s, t)`: the status and the new edge map. */
  function DelEdgeSpec(E: EdgeMap, s: int, t: int): (r: (Status, EdgeMap)) {
    if (s, t) in E then (Ok, E - {(s, t)}) else (Error, E)
  }

  /** The successors of `s`: every `t` with an edge s -> t. */
  ghost function OutSet(n: int, E: EdgeMap, s: int): set<int> {
    set t | 0 <= t < n && (s, t) in E
  }

  /** The predecessors of `t`: every `s` with an edge s -> t. */
  ghost function InSet(n: int, E: EdgeMap, t: int): set<int> {
    set s | 0 <= s < n && (s, t) in E
  }

  predicate NoDup(xs: seq<int>) {
    forall i, j :: 0 <= i < j < |xs| ==> xs[i] != xs[j]
  }

  /** `a` lists exactly the vertices of `S`, each once, in some order, and then
      the end marker; no entry before the marker is the marker. */
  ghost predicate Enumerates(a: seq<int>, S: set<int>) {
    |a| >= 1 && a[|a| - 1] == EndOfSeq &&
    (forall i :: 0 <= i < |a| - 1 ==> a[i] != EndOfSeq) &&
    NoDup(a[..|a| - 1]) &&
    forall v :: v in a[..|a| - 1] <==> v in S
  }

  // ---------------------------------------------------------------------------
  // Properties of the specification
  // ---------------------------------------------------------------------------

  /** A new graph answers INFINITY for every in-range pair and -1.0 elsewhere. */
  lemma EmptyGraph(n: int, s: int, t: int)
    requires n >= 1
    ensures WellFormed(n, map[])
    ensures EdgeValue(n, map[], s, t) == if InRange(n, s) && InRange(n, t) then NoEdge else OutOfRange
  {
  }

  /** The two sentinels of `edge` are distinct, and neither is ever the weight of
      an edge: -1.0 exactly when an endpoint is out of range, INFINITY exactly
      when the endpoints are in range and there is no edge. */
  lemma SentinelsDistinct(n: int, E: EdgeMap, s: int, t: int)
    requires WellFormed(n, E)
    ensures NoEdge != OutOfRange
    ensures EdgeValue(n, E, s, t) == OutOfRange <==> !(InRange(n, s) && InRange(n, t))
    ensures EdgeValue(n, E, s, t) == NoEdge <==> InRange(n, s) && InRange(n, t) && (s, t) !in E
    ensures (s, t) in E ==> EdgeValue(n, E, s, t) == Finite(E[(s, t)]) && E[(s, t)] >= 0.0
  {
    if InRange(n, s) && InRange(n, t) && (s, t) in E {
      assert E[(s, t)] >= 0.0;
    }
  }

  /** `addEdge` as `edge` observes it: OK exactly when both endpoints are in
      range and `edge` answered INFINITY before; then `edge` answers `w` for the
      pair; every other pair answers as before; the graph stays well formed. */
  lemma AddEdgeObserved(n: int, E: EdgeMap, s: int, t: int, w: real)
    requires WellFormed(n, E) && w >= 0.0
    ensures var (st, E') := AddEdgeSpec(n, E, s, t, w);
      WellFormed(n, E') &&
      (st == Ok <==> InRange(n, s) && InRange(n, t) && EdgeValue(n, E, s, t) == NoEdge) &&
      (st == Ok ==> EdgeValue(n, E', s, t) == Finite(w)) &&
      (st == Error ==> E' == E) &&
      forall u, v :: (u, v) != (s, t) ==> EdgeValue(n, E', u, v) == EdgeValue(n, E, u, v)
  {
  }

  /** A second `addEdge` on the same pair fails and the first weight stays. */
  lemma AddEdgeKeepsFirst(n: int, E: EdgeMap, s: int, t: int, w1: real, w2: real)
    requires WellFormed(n, E) && w1 >= 0.0
    requires AddEdgeSpec(n, E, s, t, w1).0 == Ok
    ensures var E1 := AddEdgeSpec(n, E, s, t, w1).1;
      AddEdgeSpec(n, E1, s, t, w2) == (Error, E1) && EdgeValue(n, E1, s, t) == Finite(w1)
  {
  }

  /** `delEdge` as `edge` observes it: OK exactly when there was an edge s -> t;
      then `edge` answers INFINITY for the pair; every other pair answers as
      before; the graph stays well formed. */
  lemma DelEdgeObserved(n: int, E: EdgeMap, s: int, t: int)
    requires WellFormed(n, E)
    ensures var (st, E') := DelEdgeSpec(E, s, t);
      WellFormed(n, E') &&
      (st == Ok <==> InRange(n, s) && InRange(n, t) && EdgeValue(n, E, s, t) != NoEdge) &&
      (st == Ok ==> EdgeValue(n, E', s, t) == NoEdge) &&
      (st == Error ==> E' == E) &&
      forall u, v :: (u, v) != (s, t) ==> EdgeValue(n, E', u, v) == EdgeValue(n, E, u, v)
  {
  }

  /** After a successful `delEdge`, deleting the same edge again fails. */
  lemma DelEdgeTwice(E: EdgeMap, s: int, t: int)
    requires DelEdgeSpec(E, s, t).0 == Ok
    ensures var E1 := DelEdgeSpec(E, s, t).1;
      DelEdgeSpec(E1, s, t) == (Error, E1)
  {
  }

  /** `v` is a successor of `u` exactly when `u` is a predecessor of `v`,
      exactly when `edge(G, u, v)` is a real weight. */
  lemma SuccPredConsistent(n: int, E: EdgeMap, u: int, v: int)
    requires WellFormed(n, E)
    ensures v in OutSet(n, E, u) <==> u in InSet(n, E, v)
    ensures v in OutSet(n, E, u) <==> EdgeValue(n, E, u, v) != NoEdge && EdgeValue(n, E, u, v) != OutOfRange
  {
  }

  /** The range test of `edge` pins down the vertex count: a bound `r` that
      gives -1.0 for exactly the same pairs as `n` is `n`. */
  lemma BoundDetermined(n: int, E: EdgeMap, r: int)
    requires WellFormed(n, E) && r >= 1
    requires forall s, t :: EdgeValue(n, E, s, t) == OutOfRange <==> !(InRange(r, s) && InRange(r, t))
    ensures r == n
  {
    if r < n {
      SentinelsDistinct(n, E, r, 0);
    } else if r > n {
      SentinelsDistinct(n, E, n, 0);
    }
  }

  /** A list without repeats that holds exactly the members of `S` has `|S|` entries. */
  lemma {:induction false} ListedSetSize(xs: seq<int>, S: set<int>)
    requires NoDup(xs)
    requires forall v :: v in xs <==> v in S
    ensures |xs| == |S|
  {
    if xs == [] {
      assert forall v :: v !in S;
      assert S == {};
    } else {
      var x, rest := xs[0], xs[1..];
      assert x !in rest by {
        forall k | 0 <= k < |rest| ensures rest[k] != x {
          assert rest[k] == xs[k + 1];
        }
      }
      assert NoDup(rest) by {
        forall i, j | 0 <= i < j < |rest| ensures rest[i] != rest[j] {
          assert rest[i] == xs[i + 1] && rest[j] == xs[j + 1];
        }
      }
      forall v ensures v in rest <==> v in S - {x} {
        assert xs == [x] + rest;
      }
      ListedSetSize(rest, S - {x});
      assert x in S by { assert xs[0] == x; }
    }
  }

  /** Appending the end marker to a repeat-free list of the members of `S`, all
      of them vertex numbers, gives an enumeration of `S` whose length before the
      marker is `|S|`. */
  lemma TerminatedEnumerates(xs: seq<int>, S: set<int>)
    requires NoDup(xs)
    requires forall v :: v in xs <==> v in S
    requires forall i :: 0 <= i < |xs| ==> xs[i] >= 0
    ensures Enumerates(xs + [EndOfSeq], S)
    ensures |xs| == |S|
  {
    var a := xs + [EndOfSeq];
    assert a[..|a| - 1] == xs;
    ListedSetSize(xs, S);
  }
}
