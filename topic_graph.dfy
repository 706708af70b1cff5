/**
 * The co-occurrence topic graph (`Graph` in graph.h/graph.cpp): every topic
 * maps to its list of weighted edges. `addEdge` is where the structure gets
 * its shape: a first co-occurrence appends a weight-1 edge to both endpoints'
 * lists, while a repeated one raises only the weight stored in the first
 * endpoint's list.
 */
module TopicGraph {
  import opened Sorting

  datatype Edge = Edge(destination: string, weight: int)

  type Adjacency = map<string, seq<Edge>>

  /** `adjacencyList[topic]` as a lookup: the topic's edges, none when it is not a vertex. */
  function Edges(g: Adjacency, topic: string): seq<Edge> {
    if topic in g then g[topic] else []
  }

  /** The destinations of a list of edges. */
  function Dests(es: seq<Edge>): set<string> {
    set e | e in es :: e.destination
  }

  /** `b` occurs among the destinations in `a`'s list. */
  predicate Connected(g: Adjacency, a: string, b: string) {
    b in Dests(Edges(g, a))
  }

  /** The weight of the first edge to `d`, 0 when there is none. */
  function WeightTo(es: seq<Edge>, d: string): int {
    if es == [] then 0 else if es[0].destination == d then es[0].weight else WeightTo(es[1..], d)
  }

  /** The weight `a`'s list records for `b`. */
  function W(g: Adjacency, a: string, b: string): int {
    WeightTo(Edges(g, a), b)
  }

  /** Every topic and every destination in the graph. */
  ghost function Names(g: Adjacency): set<string> {
    g.Keys + set t, e | t in g && e in g[t] :: e.destination
  }

  /** The position of the first edge to `d`. */
  function FirstTo(es: seq<Edge>, d: string): (i: nat)
    requires d in Dests(es)
    ensures i < |es| && es[i].destination == d
    ensures forall j :: 0 <= j < i ==> es[j].destination != d
  {
    if es[0].destination == d then 0
    else
      assert d in Dests(es[1..]) by {
        var e :| e in es && e.destination == d;
        var k :| 0 <= k < |es| && es[k] == e;
        assert es[1..][k - 1] == e;
      }
      1 + FirstTo(es[1..], d)
  }

  // ---------------------------------------------------------------------------
  // The shape every graph built by addEdge and addTopic keeps

  /** One topic's list: no edge back to the topic, one edge per destination, every weight at least 1. */
  predicate ListOk(t: string, es: seq<Edge>) {
    && (forall i :: 0 <= i < |es| ==> es[i].destination != t && es[i].weight >= 1)
    && (forall i, j :: 0 <= i < j < |es| ==> es[i].destination != es[j].destination)
  }

  /** Edge presence is symmetric, and every destination is itself a vertex. */
  predicate Symmetric(g: Adjacency) {
    forall t, d :: t in g && d in Dests(g[t]) ==> d in g && t in Dests(g[d])
  }

  predicate ValidGraph(g: Adjacency) {
    (forall t :: t in g ==> ListOk(t, g[t])) && Symmetric(g)
  }

  // ---------------------------------------------------------------------------
  // The operations as functions of the adjacency map

  /** The list after raising the weight of the first edge to `d`. */
  function Raise(es: seq<Edge>, d: string): seq<Edge>
    requires d in Dests(es)
  {
    var i := FirstTo(es, d);
    es[i := es[i].(weight := es[i].weight + 1)]
  }

  /**
   * `Graph::addEdge(a, b)`: nothing when `a == b`; otherwise raise the first
   * edge to `b` in `a`'s list, or, when there is none, append a weight-1 edge
   * to each endpoint's list.
   */
  function AddEdgeSpec(g: Adjacency, a: string, b: string): Adjacency {
    if a == b then g
    else if Connected(g, a, b) then g[a := Raise(Edges(g, a), b)]
    else
      var g1 := g[a := Edges(g, a) + [Edge(b, 1)]];
      g1[b := Edges(g1, b) + [Edge(a, 1)]]
  }

  /** `Graph::addTopic(t)`: `t` becomes a vertex with no edges unless it already is one. */
  function AddTopicSpec(g: Adjacency, t: string): Adjacency {
    if t in g then g else g[t := []]
  }

  /** One step of building the graph from text. */
  datatype Op = AddTopic(topic: string) | AddEdge(from: string, to: string)

  function Step(g: Adjacency, op: Op): Adjacency {
    match op
    case AddTopic(t) => AddTopicSpec(g, t)
    case AddEdge(a, b) => AddEdgeSpec(g, a, b)
  }

  /** The graph after the steps `ops`, in order. */
  function Apply(g: Adjacency, ops: seq<Op>): Adjacency {
    if ops == [] then g else Step(Apply(g, ops[..|ops| - 1]), ops[|ops| - 1])
  }

  /** How many steps add an edge between `a` and `b`, in either order. */
  function PairCount(ops: seq<Op>, a: string, b: string): nat {
    if ops == [] then 0
    else
      var op := ops[|ops| - 1];
      PairCount(ops[..|ops| - 1], a, b) + PairHit(op, a, b)
  }

  /** 1 when `op` adds an edge between `a` and `b`, in either order. */
  function PairHit(op: Op, a: string, b: string): nat {
    if op.AddEdge? && ((op.from == a && op.to == b) || (op.from == b && op.to == a)) then 1 else 0
  }

  /** After `n` `addEdge` steps on the pair: connected exactly when `n > 0`, with the two weights summing to `n + 1`. */
  predicate PairState(g: Adjacency, a: string, b: string, n: nat) {
    (Connected(g, a, b) <==> n > 0) && W(g, a, b) + W(g, b, a) == (if n == 0 then 0 else n + 1)
  }

  // ---------------------------------------------------------------------------
  // Lemmas about edge lists

  lemma {:induction false} WeightToAppend(es: seq<Edge>, e: Edge, d: string)
    ensures WeightTo(es + [e], d) ==
      if d in Dests(es) then WeightTo(es, d) else if e.destination == d then e.weight else 0
  {
    if es != [] {
      assert (es + [e])[1..] == es[1..] + [e];
      WeightToAppend(es[1..], e, d);
      assert es == [es[0]] + es[1..];
    }
  }

  lemma {:induction false} WeightToRaise(es: seq<Edge>, b: string, d: string)
    requires b in Dests(es)
    ensures WeightTo(Raise(es, b), d) == WeightTo(es, d) + (if d == b then 1 else 0)
  {
    var i := FirstTo(es, b);
    if i > 0 {
      assert Raise(es, b) == [es[0]] + Raise(es[1..], b);
      WeightToRaise(es[1..], b, d);
    }
  }

  lemma DestsAppend(es: seq<Edge>, e: Edge)
    ensures Dests(es + [e]) == Dests(es) + {e.destination}
  {
  }

  lemma DestsRaise(es: seq<Edge>, b: string)
    requires b in Dests(es)
    ensures Dests(Raise(es, b)) == Dests(es) && |Raise(es, b)| == |es|
  {
    var i := FirstTo(es, b);
    var r := Raise(es, b);
    forall d | d in Dests(r) ensures d in Dests(es) {
      var e :| e in r && e.destination == d;
      var k :| 0 <= k < |r| && r[k] == e;
      assert es[k].destination == d;
    }
    forall d | d in Dests(es) ensures d in Dests(r) {
      var e :| e in es && e.destination == d;
      var k :| 0 <= k < |es| && es[k] == e;
      assert r[k].destination == d;
    }
  }

  lemma InDests(es: seq<Edge>, i: nat)
    requires i < |es|
    ensures es[i].destination in Dests(es)
  {
    assert es[i] in es;
  }

  // ---------------------------------------------------------------------------
  // What addEdge and addTopic do to weights and to the shape

  /**
   * After `addEdge(a, b)` with `a != b`: `a`'s weight for `b` is one higher;
   * `b`'s weight for `a` becomes 1 on a first co-occurrence and is otherwise
   * left alone; every other weight is unchanged.
   */
  lemma AddEdgeWeights(g: Adjacency, a: string, b: string, x: string, y: string)
    requires ValidGraph(g) && a != b
    ensures W(AddEdgeSpec(g, a, b), x, y) ==
      if x == a && y == b then W(g, a, b) + 1
      else if x == b && y == a then (if Connected(g, a, b) then W(g, b, a) else 1)
      else W(g, x, y)
  {
    if Connected(g, a, b) {
      if x == a {
        WeightToRaise(Edges(g, a), b, y);
        assert Edges(AddEdgeSpec(g, a, b), a) == Raise(Edges(g, a), b);
      }
    } else {
      NotConnectedWeight(g, a, b);
      NotConnectedBack(g, a, b);
      NotConnectedWeight(g, b, a);
      if y !in Dests(Edges(g, x)) {
        NotInDestsWeight(Edges(g, x), y);
      }
      if x == a {
        WeightToAppend(Edges(g, a), Edge(b, 1), y);
      } else if x == b {
        WeightToAppend(Edges(g, b), Edge(a, 1), y);
      }
    }
  }

  lemma {:induction false} NotInDestsWeight(es: seq<Edge>, d: string)
    requires d !in Dests(es)
    ensures WeightTo(es, d) == 0
  {
    if es != [] {
      assert es[0] in es;
      assert Dests(es[1..]) <= Dests(es);
      NotInDestsWeight(es[1..], d);
    }
  }

  lemma NotConnectedWeight(g: Adjacency, a: string, b: string)
    requires !Connected(g, a, b)
    ensures W(g, a, b) == 0
  {
    NotInDestsWeight(Edges(g, a), b);
  }

  /** In a valid graph edge presence is symmetric. */
  lemma NotConnectedBack(g: Adjacency, a: string, b: string)
    requires Symmetric(g) && !Connected(g, a, b)
    ensures !Connected(g, b, a)
  {
  }

  /** `addEdge` keeps the graph valid: no self-loops, symmetric presence, one edge per destination, positive weights. */
  lemma AddEdgeValid(g: Adjacency, a: string, b: string)
    requires ValidGraph(g)
    ensures ValidGraph(AddEdgeSpec(g, a, b))
  {
    if a != b {
      if Connected(g, a, b) {
        RaiseValid(g, a, b);
      } else {
        NotConnectedBack(g, a, b);
        AppendValid(g, a, b);
      }
    }
  }

  lemma RaiseListOk(t: string, es: seq<Edge>, b: string)
    requires ListOk(t, es) && b in Dests(es)
    ensures ListOk(t, Raise(es, b))
  {
  }

  lemma AppendListOk(t: string, es: seq<Edge>, e: Edge)
    requires ListOk(t, es) && e.destination != t && e.destination !in Dests(es) && e.weight >= 1
    ensures ListOk(t, es + [e])
  {
    forall i | 0 <= i < |es| ensures es[i].destination != e.destination {
      InDests(es, i);
    }
  }

  lemma RaiseValid(g: Adjacency, a: string, b: string)
    requires ValidGraph(g) && a != b && Connected(g, a, b)
    ensures ValidGraph(g[a := Raise(Edges(g, a), b)])
  {
    DestsRaise(g[a], b);
    RaiseListOk(a, g[a], b);
  }

  lemma AppendValid(g: Adjacency, a: string, b: string)
    requires ValidGraph(g) && a != b && !Connected(g, a, b) && !Connected(g, b, a)
    ensures ValidGraph(AddEdgeSpec(g, a, b))
  {
    var g': Adjacency := AddEdgeSpec(g, a, b);
    AppendListOk(a, Edges(g, a), Edge(b, 1));
    AppendListOk(b, Edges(g, b), Edge(a, 1));
    assert forall t :: t in g' ==> ListOk(t, g'[t]);
    AppendSymmetric(g, a, b);
  }

  lemma AppendSymmetric(g: Adjacency, a: string, b: string)
    requires Symmetric(g) && a != b && !Connected(g, a, b)
    ensures Symmetric(AddEdgeSpec(g, a, b))
  {
    var g': Adjacency := AddEdgeSpec(g, a, b);
    DestsAppend(Edges(g, a), Edge(b, 1));
    DestsAppend(Edges(g, b), Edge(a, 1));
    assert Dests(g'[a]) == Dests(Edges(g, a)) + {b};
    assert Dests(g'[b]) == Dests(Edges(g, b)) + {a};
    assert forall t :: t in g' && t != a && t != b ==> g'[t] == g[t];
    forall t, d | t in g' && d in Dests(g'[t]) ensures d in g' && t in Dests(g'[d]) {
      if t == a {
        if d != b {
          assert d in Dests(g[a]);
        }
      } else if t == b {
        if d != a {
          assert d in Dests(g[b]);
        }
      } else {
        assert d in Dests(g[t]);
      }
    }
  }

  /** `addTopic` is idempotent, keeps every edge list as it was and keeps the graph valid. */
  lemma AddTopicFacts(g: Adjacency, t: string)
    ensures AddTopicSpec(AddTopicSpec(g, t), t) == AddTopicSpec(g, t)
    ensures t in AddTopicSpec(g, t)
    ensures forall x :: Edges(AddTopicSpec(g, t), x) == Edges(g, x)
    ensures ValidGraph(g) ==> ValidGraph(AddTopicSpec(g, t))
  {
  }

  /** A step keeps the graph valid. */
  lemma StepValid(g: Adjacency, op: Op)
    requires ValidGraph(g)
    ensures ValidGraph(Step(g, op))
  {
    match op
    case AddTopic(t) => AddTopicFacts(g, t);
    case AddEdge(a, b) => AddEdgeValid(g, a, b);
  }

  lemma {:induction false} ApplyValid(g: Adjacency, ops: seq<Op>)
    requires ValidGraph(g)
    ensures ValidGraph(Apply(g, ops))
  {
    if ops != [] {
      ApplyValid(g, ops[..|ops| - 1]);
      StepValid(Apply(g, ops[..|ops| - 1]), ops[|ops| - 1]);
    }
  }

  /**
   * Starting from a valid graph in which `a` and `b` are not connected, the two
   * weights of the pair add up to one more than the number of `addEdge` steps
   * on the pair (in either order) once there has been one; before that the
   * pair stays unconnected.
   */
  lemma {:induction false} PairWeights(g: Adjacency, ops: seq<Op>, a: string, b: string)
    requires ValidGraph(g) && a != b && !Connected(g, a, b)
    ensures var n := PairCount(ops, a, b); var h := Apply(g, ops);
      && (Connected(h, a, b) <==> n > 0)
      && W(h, a, b) + W(h, b, a) == (if n == 0 then 0 else n + 1)
  {
    if ops == [] {
      NotConnectedBack(g, a, b);
      NotConnectedWeight(g, a, b);
      NotConnectedWeight(g, b, a);
    } else {
      var init := ops[..|ops| - 1];
      PairWeights(g, init, a, b);
      ApplyValid(g, init);
      PairStep(Apply(g, init), ops[|ops| - 1], a, b, PairCount(init, a, b));
    }
  }

  /** One step of `PairWeights`. */
  lemma PairStep(h: Adjacency, op: Op, a: string, b: string, n: nat)
    requires ValidGraph(h) && a != b && PairState(h, a, b, n)
    ensures PairState(Step(h, op), a, b, n + PairHit(op, a, b))
  {
    match op
    case AddTopic(t) =>
      PairTopic(h, t, a, b, n);
    case AddEdge(x, y) =>
      if x == y {
      } else if (x == a && y == b) || (x == b && y == a) {
        PairEdgeOn(h, x, y, a, b, n);
      } else {
        PairEdgeOff(h, x, y, a, b, n);
      }
  }

  /** `addTopic` leaves the presence and both weights of every pair alone. */
  lemma PairTopic(h: Adjacency, t: string, a: string, b: string, n: nat)
    requires PairState(h, a, b, n)
    ensures PairState(AddTopicSpec(h, t), a, b, n)
  {
    AddTopicFacts(h, t);
    assert Edges(AddTopicSpec(h, t), a) == Edges(h, a) && Edges(AddTopicSpec(h, t), b) == Edges(h, b);
  }

  /** `addEdge` on the pair itself: the pair becomes connected and the weight sum grows by one, or starts at two. */
  lemma PairEdgeOn(h: Adjacency, x: string, y: string, a: string, b: string, n: nat)
    requires ValidGraph(h) && x != y && PairState(h, a, b, n)
    requires (x == a && y == b) || (x == b && y == a)
    ensures PairState(AddEdgeSpec(h, x, y), a, b, n + 1)
  {
    if !Connected(h, x, y) {
      NotConnectedBack(h, x, y);
      NotConnectedWeight(h, x, y);
      NotConnectedWeight(h, y, x);
    }
    AddEdgeWeights(h, x, y, x, y);
    AddEdgeWeights(h, x, y, y, x);
    AddEdgeConnects(h, x, y, x, y);
  }

  /** `addEdge` on another pair leaves the presence and both weights of `a`, `b` alone. */
  lemma PairEdgeOff(h: Adjacency, x: string, y: string, a: string, b: string, n: nat)
    requires ValidGraph(h) && x != y && a != b && PairState(h, a, b, n)
    requires !((x == a && y == b) || (x == b && y == a))
    ensures PairState(AddEdgeSpec(h, x, y), a, b, n)
  {
    AddEdgeWeights(h, x, y, a, b);
    AddEdgeWeights(h, x, y, b, a);
    AddEdgeConnects(h, x, y, a, b);
  }

  /** `addEdge(x, y)` connects `x` to `y` and `y` to `x`, and changes no other pair's presence. */
  lemma AddEdgeConnects(g: Adjacency, x: string, y: string, a: string, b: string)
    requires ValidGraph(g) && x != y
    ensures Connected(AddEdgeSpec(g, x, y), x, y) && Connected(AddEdgeSpec(g, x, y), y, x)
    ensures !((a == x && b == y) || (a == y && b == x)) ==>
      (Connected(AddEdgeSpec(g, x, y), a, b) <==> Connected(g, a, b))
  {
    if Connected(g, x, y) {
      DestsRaise(Edges(g, x), y);
    } else {
      NotConnectedBack(g, x, y);
      DestsAppend(Edges(g, x), Edge(y, 1));
      DestsAppend(Edges(g, y), Edge(x, 1));
    }
  }

  /** Weights never decrease under `addEdge`. */
  lemma AddEdgeMonotone(g: Adjacency, a: string, b: string, x: string, y: string)
    requires ValidGraph(g)
    ensures W(AddEdgeSpec(g, a, b), x, y) >= W(g, x, y)
  {
    if a != b {
      AddEdgeWeights(g, a, b, x, y);
      if x == b && y == a && !Connected(g, a, b) {
        NotConnectedBack(g, a, b);
        NotConnectedWeight(g, b, a);
      }
    }
  }

  /** After `addEdge(a, b)` with `a != b`, both topics are vertices. */
  lemma AddEdgeVertices(g: Adjacency, a: string, b: string)
    requires ValidGraph(g) && a != b
    ensures a in AddEdgeSpec(g, a, b) && b in AddEdgeSpec(g, a, b)
    ensures AddEdgeSpec(g, a, b).Keys == g.Keys + {a, b}
  {
  }

  // ---------------------------------------------------------------------------
  // Sequences of steps

  /** One more step after `ops`. */
  lemma ApplySnoc(g: Adjacency, ops: seq<Op>, op: Op)
    ensures Apply(g, ops + [op]) == Step(Apply(g, ops), op)
  {
    assert (ops + [op])[..|ops|] == ops;
  }

  /** Running `a` and then `b` is running `a + b`. */
  lemma {:induction false} ApplyConcat(g: Adjacency, a: seq<Op>, b: seq<Op>)
    ensures Apply(g, a + b) == Apply(Apply(g, a), b)
  {
    if b == [] {
      assert a + b == a;
    } else {
      var init, last := b[..|b| - 1], b[|b| - 1];
      assert a + b == (a + init) + [last];
      assert b == init + [last];
      ApplyConcat(g, a, init);
      ApplySnoc(g, a + init, last);
      ApplySnoc(Apply(g, a), init, last);
    }
  }

  /** No step removes a vertex, and every `addTopic` step leaves its topic a vertex. */
  lemma {:induction false} ApplyKeys(g: Adjacency, ops: seq<Op>)
    ensures g.Keys <= Apply(g, ops).Keys
    ensures forall op :: op in ops && op.AddTopic? ==> op.topic in Apply(g, ops)
  {
    if ops != [] {
      var init, last := ops[..|ops| - 1], ops[|ops| - 1];
      assert ops == init + [last];
      ApplyKeys(g, init);
      var h := Apply(g, init);
      assert h.Keys <= Step(h, last).Keys;
    }
  }

  // ---------------------------------------------------------------------------
  // Facts about sets used by the traversals

  lemma {:induction false} SubsetCard<T>(a: set<T>, b: set<T>)
    requires a <= b
    ensures |a| <= |b|
    decreases |b|
  {
    if a != {} {
      var x :| x in a;
      SubsetCard(a - {x}, b - {x});
    }
  }

  /** Growing `v` to `v'` inside `u` removes from `u - v` exactly the new elements. */
  lemma GrowCard<T>(u: set<T>, v: set<T>, v': set<T>)
    requires v <= v' <= u
    ensures |u - v'| + |v' - v| == |u - v|
  {
    assert u - v == (u - v') + (v' - v);
    assert (u - v') * (v' - v) == {};
  }

  /** The measure of `dfsCluster`: once `node` is visited, fewer vertices remain unvisited. */
  lemma Descend<T>(names: set<T>, visited: set<T>, visited': set<T>, node: T)
    requires node in names && node !in visited && visited + {node} <= visited'
    ensures |names - visited'| < |names - visited|
  {
    SubsetCard(names - visited', names - (visited + {node}));
    assert names - (visited + {node}) == (names - visited) - {node};
  }

  lemma DestsInNames(g: Adjacency, t: string)
    ensures Dests(Edges(g, t)) <= Names(g)
  {
    if t in g {
      forall d | d in Dests(g[t]) ensures d in Names(g) {
        var e :| e in g[t] && e.destination == d;
      }
    }
  }

  // ---------------------------------------------------------------------------
  // Hops from a vertex

  /** The destinations of the edges out of the vertices in `S`. */
  ghost function Succ(g: Adjacency, S: set<string>): set<string> {
    set t, e | t in S && e in Edges(g, t) :: e.destination
  }

  /** The vertices at most `k` hops from `s`. */
  ghost function Within(g: Adjacency, s: string, k: nat): set<string> {
    if k == 0 then {s} else Within(g, s, k - 1) + Succ(g, Within(g, s, k - 1))
  }

  /** The vertices exactly `k` hops from `s`. */
  ghost function Level(g: Adjacency, s: string, k: nat): set<string> {
    if k == 0 then {s} else Within(g, s, k) - Within(g, s, k - 1)
  }

  lemma SuccUnion(g: Adjacency, X: set<string>, Y: set<string>)
    ensures Succ(g, X + Y) == Succ(g, X) + Succ(g, Y)
  {
  }

  /** Adding one vertex adds its destinations. */
  lemma SuccAdd(g: Adjacency, P: set<string>, u: string)
    ensures Succ(g, P + {u}) == Succ(g, P) + Dests(Edges(g, u))
  {
    SuccUnion(g, P, {u});
    assert Succ(g, {u}) == Dests(Edges(g, u));
  }

  /** One hop from `s` reaches exactly its destinations. */
  lemma WithinOne(g: Adjacency, s: string)
    ensures Within(g, s, 1) == {s} + Dests(Edges(g, s))
  {
    assert Succ(g, {s}) == Dests(Edges(g, s));
  }

  lemma {:induction false} WithinMonotone(g: Adjacency, s: string, i: nat, j: nat)
    requires i <= j
    ensures Within(g, s, i) <= Within(g, s, j)
    decreases j
  {
    if i < j {
      WithinMonotone(g, s, i, j - 1);
    }
  }

  /**
   * Breadth-first search in a nutshell: level `k + 1` is what the edges out of
   * level `k` reach that is not within `k` hops, and `k + 1` hops reach that
   * much further.
   */
  lemma FrontierStep(g: Adjacency, s: string, k: nat)
    ensures Level(g, s, k + 1) == Succ(g, Level(g, s, k)) - Within(g, s, k)
    ensures Within(g, s, k + 1) == Within(g, s, k) + Level(g, s, k + 1)
  {
    if k > 0 {
      var before, now := Within(g, s, k - 1), Within(g, s, k);
      assert now == before + Level(g, s, k);
      SuccUnion(g, before, Level(g, s, k));
      SuccUnion(g, Level(g, s, k), now);
      assert Level(g, s, k) + now == now;
    }
  }

  /** Once a hop reaches nothing new, no later hop does. */
  lemma {:induction false} WithinStable(g: Adjacency, s: string, k: nat, j: nat)
    requires Within(g, s, k + 1) == Within(g, s, k) && k <= j
    ensures Within(g, s, j) == Within(g, s, k)
    decreases j
  {
    if j > k {
      WithinStable(g, s, k, j - 1);
    }
  }

  // ---------------------------------------------------------------------------
  // The pieces of the traversals

  /** A search result of `getRelatedTopics`: a topic and an edge weight. */
  type Related = (string, int)

  function RelWeight(p: Related): int {
    p.1
  }

  function ClusterSize(c: seq<string>): int {
    |c|
  }

  /** Some vertex has an edge to `d` of weight `w`. */
  predicate HasEdgeTo(g: Adjacency, d: string, w: int) {
    exists t :: t in g && Edge(d, w) in g[t]
  }

  /** The destinations of the edges of weight at least `m`. */
  function StrongDests(es: seq<Edge>, m: int): set<string> {
    set e | e in es && e.weight >= m :: e.destination
  }

  /** Every member after the first is the end of an edge of weight at least `m` from an earlier member. */
  predicate ReachedInOrder(g: Adjacency, c: seq<string>, m: int) {
    forall i :: 1 <= i < |c| ==> ReachedFromEarlier(g, c, i, m)
  }

  /** `c[i]` is the end of an edge of weight at least `m` from a member before it. */
  predicate ReachedFromEarlier(g: Adjacency, c: seq<string>, i: nat, m: int)
    requires i < |c|
  {
    exists j :: 0 <= j < i && c[i] in StrongDests(Edges(g, c[j]), m)
  }

  /**
   * What one `dfsCluster` call contributes: `added` holds vertices that were
   * not in `visited`, each once, reached in order; `visited'` is `visited`
   * with them.
   */
  ghost predicate Explored(g: Adjacency, visited: set<string>, added: seq<string>, visited': set<string>, m: int) {
    && NoDuplicates(added)
    && (forall x :: x in added ==> x !in visited && x in Names(g))
    && visited' == visited + (set x | x in added)
    && ReachedInOrder(g, added, m)
  }

  /** The topics in a list of (topic, number) pairs. */
  function Firsts(q: seq<(string, int)>): set<string> {
    set e | e in q :: e.0
  }

  /** Every entry of the queue `q` is at depth `d`. */
  predicate AtDepth(q: seq<(string, int)>, d: int) {
    forall e :: e in q ==> e.1 == d
  }

  lemma FirstsConcat(a: seq<(string, int)>, b: seq<(string, int)>)
    ensures Firsts(a + b) == Firsts(a) + Firsts(b)
  {
  }

  /**
   * Emit a pair for every edge whose destination is not visited (the first
   * inner loop of `getRelatedTopics`): what was found is kept, and the topics
   * of the new pairs are exactly the unvisited destinations.
   */
  method EmitUnvisited(es: seq<Edge>, visited: set<string>, found: seq<Related>) returns (found': seq<Related>)
    ensures |found| <= |found'| && found'[..|found|] == found
    ensures Firsts(found'[|found|..]) == Dests(es) - visited
    ensures forall p :: p in found' ==> p in found || (p.0 !in visited && Edge(p.0, p.1) in es)
    ensures forall i :: 0 <= i < |es| && es[i].destination !in visited ==> (es[i].destination, es[i].weight) in found'
  {
    found' := found;
    for i := 0 to |es|
      invariant |found| <= |found'| && found'[..|found|] == found
      invariant Firsts(found'[|found|..]) == Dests(es[..i]) - visited
      invariant forall p :: p in found' ==> p in found || (p.0 !in visited && Edge(p.0, p.1) in es)
      invariant forall k :: 0 <= k < i && es[k].destination !in visited ==> (es[k].destination, es[k].weight) in found'
    {
      DestsPrefix(es, i);
      if es[i].destination !in visited {
        var p := (es[i].destination, es[i].weight);
        assert Edge(p.0, p.1) == es[i];
        FirstsConcat(found'[|found|..], [p]);
        assert (found' + [p])[|found|..] == found'[|found|..] + [p];
        found' := found' + [p];
      }
    }
    assert es[..|es|] == es;
  }

  /**
   * Mark every unvisited destination visited and enqueue it one level deeper
   * (the second inner loop): the queue keeps its entries, and the entries
   * appended are the newly visited topics, each once, all at `depth + 1`.
   */
  method EnqueueUnvisited(es: seq<Edge>, visited: set<string>, q: seq<(string, int)>, depth: int)
    returns (visited': set<string>, q': seq<(string, int)>)
    ensures visited' == visited + Dests(es)
    ensures |q| <= |q'| && q'[..|q|] == q
    ensures AtDepth(q'[|q|..], depth + 1)
    ensures Firsts(q'[|q|..]) == visited' - visited
    ensures |q'| == |q| + |visited' - visited|
  {
    visited', q' := visited, q;
    for i := 0 to |es|
      invariant visited' == visited + Dests(es[..i])
      invariant |q| <= |q'| && q'[..|q|] == q
      invariant AtDepth(q'[|q|..], depth + 1)
      invariant Firsts(q'[|q|..]) == visited' - visited
      invariant |q'| == |q| + |visited' - visited|
    {
      DestsPrefix(es, i);
      var d := es[i].destination;
      if d !in visited' {
        EnqueueStep(visited, visited', q, q', d, depth);
        visited' := visited' + {d};
        q' := q' + [(d, depth + 1)];
      }
    }
    assert es[..|es|] == es;
  }

  /** One entry appended by `EnqueueUnvisited`. */
  lemma EnqueueStep(visited: set<string>, v: set<string>, q: seq<(string, int)>, q': seq<(string, int)>, d: string, depth: int)
    requires visited <= v && d !in v
    requires |q| <= |q'| && q'[..|q|] == q && AtDepth(q'[|q|..], depth + 1)
    requires Firsts(q'[|q|..]) == v - visited && |q'| == |q| + |v - visited|
    ensures var v', q'' := v + {d}, q' + [(d, depth + 1)];
      && |q| <= |q''| && q''[..|q|] == q && AtDepth(q''[|q|..], depth + 1)
      && Firsts(q''[|q|..]) == v' - visited && |q''| == |q| + |v' - visited|
  {
    NewVisitedCard(visited, v, d);
    var e := (d, depth + 1);
    assert (q' + [e])[|q|..] == q'[|q|..] + [e];
    FirstsConcat(q'[|q|..], [e]);
  }

  /**
   * What `getRelatedTopics` has emitted once the depth-`d` vertices in `P` are
   * done: nothing at depth 0; otherwise the vertices from 2 to `d` hops out,
   * and whatever the edges out of `P` reach beyond `d` hops.
   */
  ghost function Emitted(g: Adjacency, s: string, d: nat, P: set<string>): set<string> {
    if d == 0 then {} else (Within(g, s, d) - Within(g, s, 1)) + (Succ(g, P) - Within(g, s, d))
  }

  /**
   * The state of the breadth-first walk from `s`: the queue is `A + B`, where
   * `A` is the rest of level `d` (the vertices `P` of that level are done) and
   * `B` the part of level `d + 1` the vertices in `P` discovered.
   */
  ghost predicate BfsState(g: Adjacency, s: string, maxDepth: int, d: nat, P: set<string>,
    A: seq<(string, int)>, B: seq<(string, int)>, visited: set<string>, found: seq<Related>)
  {
    && AtDepth(A, d) && AtDepth(B, d + 1)
    && Firsts(A) + P == Level(g, s, d)
    && (d == 0 || d <= maxDepth)
    && visited == Within(g, s, d) + Firsts(B)
    && Firsts(B) <= Succ(g, P) - Within(g, s, d)
    && (d < maxDepth ==> Firsts(B) == Succ(g, P) - Within(g, s, d))
    && (d >= maxDepth ==> B == [])
    && Firsts(found) == Emitted(g, s, d, P)
  }

  /** The walk starts with `s` alone, at depth 0. */
  lemma BfsStart(g: Adjacency, s: string, maxDepth: int)
    ensures BfsState(g, s, maxDepth, 0, {}, [(s, 0)], [], {s}, [])
  {
    assert Succ(g, {}) == {};
  }

  /** Level `d` is done: the discovered part of level `d + 1` is all of it, and the walk moves down. */
  lemma BfsShift(g: Adjacency, s: string, maxDepth: int, d: nat, P: set<string>,
    B: seq<(string, int)>, visited: set<string>, found: seq<Related>)
    requires BfsState(g, s, maxDepth, d, P, [], B, visited, found) && B != []
    ensures BfsState(g, s, maxDepth, d + 1, {}, B, [], visited, found)
  {
    FrontierStep(g, s, d);
    assert Succ(g, {}) == {};
    if d > 0 {
      WithinMonotone(g, s, 1, d);
    }
  }

  /** One vertex of level `d` dequeued, its unvisited neighbours emitted and enqueued as the depth allows. */
  lemma BfsStep(g: Adjacency, s: string, maxDepth: int, d: nat, P: set<string>,
    A: seq<(string, int)>, B: seq<(string, int)>, visited: set<string>, found: seq<Related>,
    visited': set<string>, found': seq<Related>, more: seq<(string, int)>)
    requires BfsState(g, s, maxDepth, d, P, A, B, visited, found) && A != []
    requires var es := Edges(g, A[0].0);
      && (if 0 < d <= maxDepth
          then |found| <= |found'| && found'[..|found|] == found && Firsts(found'[|found|..]) == Dests(es) - visited
          else found' == found)
      && (if d < maxDepth
          then visited' == visited + Dests(es) && AtDepth(more, d + 1) && Firsts(more) == visited' - visited
          else visited' == visited && more == [])
    ensures BfsState(g, s, maxDepth, d, P + {A[0].0}, A[1..], B + more, visited', found')
  {
    var u := A[0].0;
    assert Firsts(A[1..]) + (P + {u}) == Level(g, s, d) by {
      assert A == [A[0]] + A[1..];
      FirstsConcat([A[0]], A[1..]);
    }
    BfsVisitStep(g, s, maxDepth, d, P, u, B, visited, visited', more);
    if 0 < d <= maxDepth {
      BfsEmitStep(g, s, d, P, u, Firsts(B), visited, found, found');
    }
  }

  /** The visited set and the next level's queue after one vertex of level `d`. */
  lemma BfsVisitStep(g: Adjacency, s: string, maxDepth: int, d: nat, P: set<string>, u: string,
    B: seq<(string, int)>, visited: set<string>, visited': set<string>, more: seq<(string, int)>)
    requires AtDepth(B, d + 1) && visited == Within(g, s, d) + Firsts(B)
    requires Firsts(B) <= Succ(g, P) - Within(g, s, d)
    requires d < maxDepth ==> Firsts(B) == Succ(g, P) - Within(g, s, d)
    requires d >= maxDepth ==> B == []
    requires if d < maxDepth
      then visited' == visited + Dests(Edges(g, u)) && AtDepth(more, d + 1) && Firsts(more) == visited' - visited
      else visited' == visited && more == []
    ensures AtDepth(B + more, d + 1) && visited' == Within(g, s, d) + Firsts(B + more)
    ensures Firsts(B + more) <= Succ(g, P + {u}) - Within(g, s, d)
    ensures d < maxDepth ==> Firsts(B + more) == Succ(g, P + {u}) - Within(g, s, d)
    ensures d >= maxDepth ==> B + more == []
  {
    SuccAdd(g, P, u);
    FirstsConcat(B, more);
  }

  /** What one vertex of level `d` adds to the emitted topics. */
  lemma BfsEmitStep(g: Adjacency, s: string, d: nat, P: set<string>, u: string,
    F: set<string>, visited: set<string>, found: seq<Related>, found': seq<Related>)
    requires d > 0 && Firsts(found) == Emitted(g, s, d, P)
    requires visited == Within(g, s, d) + F && F <= Succ(g, P) - Within(g, s, d)
    requires |found| <= |found'| && found'[..|found|] == found
    requires Firsts(found'[|found|..]) == Dests(Edges(g, u)) - visited
    ensures Firsts(found') == Emitted(g, s, d, P + {u})
  {
    assert found' == found + found'[|found|..];
    FirstsConcat(found, found'[|found|..]);
    SuccAdd(g, P, u);
    NewlyEmitted(Within(g, s, d), Within(g, s, 1), Succ(g, P), Dests(Edges(g, u)), F);
  }

  /** The set algebra behind the emitted part of `BfsStep`. */
  lemma NewlyEmitted(Wd: set<string>, W1: set<string>, SP: set<string>, D: set<string>, F: set<string>)
    requires F <= SP - Wd
    ensures (Wd - W1) + (SP - Wd) + (D - (Wd + F)) == (Wd - W1) + ((SP + D) - Wd)
  {
  }

  /** Before a dequeue: the state moves down a level when the current one is done. */
  lemma BfsFront(g: Adjacency, s: string, maxDepth: int, d: nat, P: set<string>,
    A: seq<(string, int)>, B: seq<(string, int)>, q: seq<(string, int)>, visited: set<string>, found: seq<Related>)
    returns (d': nat, P': set<string>, A': seq<(string, int)>, B': seq<(string, int)>)
    requires q == A + B && q != [] && BfsState(g, s, maxDepth, d, P, A, B, visited, found)
    ensures q == A' + B' && A' != [] && BfsState(g, s, maxDepth, d', P', A', B', visited, found)
  {
    if A == [] {
      QueueShift(q, B);
      BfsShift(g, s, maxDepth, d, P, B, visited, found);
      d', P', A', B' := d + 1, {}, B, [];
    } else {
      d', P', A', B' := d, P, A, B;
    }
  }

  /** An empty queue: everything from 2 to `maxDepth + 1` hops out has been emitted, and nothing else. */
  lemma BfsEnd(g: Adjacency, s: string, maxDepth: int, d: nat, P: set<string>, visited: set<string>, found: seq<Related>)
    requires BfsState(g, s, maxDepth, d, P, [], [], visited, found) && maxDepth >= 1
    ensures Firsts(found) == Within(g, s, maxDepth + 1) - Within(g, s, 1)
  {
    FrontierStep(g, s, d);
    if d < maxDepth {
      WithinStable(g, s, d, maxDepth + 1);
      if d == 0 {
        WithinStable(g, s, d, 1);
      }
    }
    if d > 0 {
      WithinMonotone(g, s, 1, d);
    }
  }

  /** The same pairs, in any order, name the same topics. */
  lemma FirstsPermuted(a: seq<Related>, b: seq<Related>)
    requires multiset(a) == multiset(b)
    ensures Firsts(a) == Firsts(b)
  {
    forall p | p in a ensures p in b {
      assert p in multiset(a);
    }
    forall p | p in b ensures p in a {
      assert p in multiset(b);
    }
  }

  /**
   * One turn of the loop of `getRelatedTopics`. The ghost state first moves
   * down a level when the current one is done; then `Expand` handles the
   * front vertex.
   */
  method VisitNext(g: Adjacency, topic: string, maxDepth: int, ghost names: set<string>,
    ghost d: nat, ghost P: set<string>, ghost A: seq<(string, int)>, ghost B: seq<(string, int)>,
    q: seq<(string, int)>, visited: set<string>, found: seq<Related>)
    returns (q': seq<(string, int)>, visited': set<string>, found': seq<Related>,
      ghost d': nat, ghost P': set<string>, ghost A': seq<(string, int)>, ghost B': seq<(string, int)>)
    requires names == Names(g) && visited <= names
    requires q == A + B && q != [] && BfsState(g, topic, maxDepth, d, P, A, B, visited, found)
    requires maxDepth <= 0 ==> found == []
    requires forall p :: p in found ==> HasEdgeTo(g, p.0, p.1)
    ensures visited <= visited' <= names
    ensures q' == A' + B' && BfsState(g, topic, maxDepth, d', P', A', B', visited', found')
    ensures maxDepth <= 0 ==> found' == []
    ensures forall p :: p in found' ==> HasEdgeTo(g, p.0, p.1)
    ensures |names - visited'| + |q'| < |names - visited| + |q|
  {
    d', P', A', B' := BfsFront(g, topic, maxDepth, d, P, A, B, q, visited, found);
    ghost var more;
    q', visited', found', more := Expand(g, topic, maxDepth, names, d', P', A', B', q, visited, found);
    P', A', B' := P' + {A'[0].0}, A'[1..], B' + more;
  }

  /**
   * Dequeue the front vertex of level `d`, emit its unvisited neighbours when
   * `d` is `1..maxDepth`, then, below `maxDepth`, visit and enqueue them one
   * level deeper.
   */
  method Expand(g: Adjacency, topic: string, maxDepth: int, ghost names: set<string>,
    ghost d: nat, ghost P: set<string>, ghost A: seq<(string, int)>, ghost B: seq<(string, int)>,
    q: seq<(string, int)>, visited: set<string>, found: seq<Related>)
    returns (q': seq<(string, int)>, visited': set<string>, found': seq<Related>, ghost more: seq<(string, int)>)
    requires names == Names(g) && visited <= names
    requires q == A + B && A != [] && BfsState(g, topic, maxDepth, d, P, A, B, visited, found)
    requires maxDepth <= 0 ==> found == []
    requires forall p :: p in found ==> HasEdgeTo(g, p.0, p.1)
    ensures visited <= visited' <= names
    ensures q' == A[1..] + (B + more)
    ensures BfsState(g, topic, maxDepth, d, P + {A[0].0}, A[1..], B + more, visited', found')
    ensures maxDepth <= 0 ==> found' == []
    ensures forall p :: p in found' ==> HasEdgeTo(g, p.0, p.1)
    ensures |names - visited'| + |q'| < |names - visited| + |q|
  {
    var current, depth := q[0].0, q[0].1;
    QueuePop(q, A, B);
    assert A[0] in A;
    q' := q[1..];
    var es := Edges(g, current);
    found', visited', more := found, visited, [];
    if depth > 0 && depth <= maxDepth {
      found' := EmitUnvisited(es, visited, found);
      forall p | p in found' ensures HasEdgeTo(g, p.0, p.1) {
        if p !in found {
          assert current in g && Edge(p.0, p.1) in g[current];
        }
      }
    }
    if depth < maxDepth {
      var q0 := q';
      visited', q' := EnqueueUnvisited(es, visited, q', depth);
      more := q'[|q0|..];
      QueueAppend(A[1..], B, q0, q');
      DestsInNames(g, current);
      GrowCard(names, visited, visited');
    } else {
      assert B + more == B;
    }
    BfsStep(g, topic, maxDepth, d, P, A, B, visited, found, visited', found', more);
  }

  /**
   * The breadth-first walk of `getRelatedTopics` from `topic`, before the
   * sort: the topics of the pairs found are exactly those 2 to `maxDepth + 1`
   * hops away, and each pair is an edge of the graph.
   */
  method BreadthFirst(g: Adjacency, topic: string, maxDepth: int) returns (found: seq<Related>)
    requires topic in g
    ensures maxDepth <= 0 ==> found == []
    ensures maxDepth >= 1 ==> Firsts(found) == Within(g, topic, maxDepth + 1) - Within(g, topic, 1)
    ensures forall p :: p in found ==> HasEdgeTo(g, p.0, p.1)
  {
    ghost var names := Names(g);
    ghost var d: nat, P: set<string>, A: seq<(string, int)>, B: seq<(string, int)> := 0, {}, [(topic, 0)], [];
    found := [];
    var q: seq<(string, int)> := [(topic, 0)];
    var visited := {topic};
    BfsStart(g, topic, maxDepth);
    while q != []
      invariant visited <= names && topic in visited
      invariant q == A + B && BfsState(g, topic, maxDepth, d, P, A, B, visited, found)
      invariant maxDepth <= 0 ==> found == []
      invariant forall p :: p in found ==> HasEdgeTo(g, p.0, p.1)
      decreases |names - visited| + |q|
    {
      q, visited, found, d, P, A, B := VisitNext(g, topic, maxDepth, names, d, P, A, B, q, visited, found);
    }
    QueueEmpty(q, A, B);
    if maxDepth >= 1 {
      BfsEnd(g, topic, maxDepth, d, P, visited, found);
    }
  }

  lemma QueueEmpty<T>(q: seq<T>, A: seq<T>, B: seq<T>)
    requires q == A + B && q == []
    ensures A == [] && B == []
  {
  }

  /** Dequeuing from a queue made of two parts. */
  lemma QueuePop<T>(q: seq<T>, A: seq<T>, B: seq<T>)
    requires q == A + B && A != []
    ensures q[0] == A[0] && q[1..] == A[1..] + B
  {
  }

  /** The first part of the queue is done: the second part becomes the first. */
  lemma QueueShift<T>(q: seq<T>, B: seq<T>)
    requires q == [] + B
    ensures q == B + [] && (q != [] ==> B != [])
  {
  }

  /** Enqueuing behind a queue made of two parts. */
  lemma QueueAppend<T>(A: seq<T>, B: seq<T>, q: seq<T>, q': seq<T>)
    requires q == A + B && |q| <= |q'| && q'[..|q|] == q
    ensures q' == A + (B + q'[|q|..])
  {
    assert q' == q'[..|q|] + q'[|q|..];
  }

  lemma DestsPrefix(es: seq<Edge>, i: nat)
    requires i < |es|
    ensures Dests(es[..i + 1]) == Dests(es[..i]) + {es[i].destination}
  {
    assert es[..i + 1] == es[..i] + [es[i]];
    DestsAppend(es[..i], es[i]);
  }

  lemma NewVisitedCard(visited: set<string>, visited': set<string>, d: string)
    requires visited <= visited' && d !in visited'
    ensures |(visited' + {d}) - visited| == |visited' - visited| + 1
  {
    assert (visited' + {d}) - visited == (visited' - visited) + {d};
  }

  lemma ReachedConcat(g: Adjacency, a: seq<string>, b: seq<string>, m: int)
    requires ReachedInOrder(g, a, m) && ReachedInOrder(g, b, m)
    requires |a| > 0 && |b| > 0 && b[0] in StrongDests(Edges(g, a[0]), m)
    ensures ReachedInOrder(g, a + b, m)
  {
    var s := a + b;
    forall i | 1 <= i < |s| ensures ReachedFromEarlier(g, s, i, m) {
      if i < |a| {
        assert ReachedFromEarlier(g, a, i, m);
        var j :| 0 <= j < i && a[i] in StrongDests(Edges(g, a[j]), m);
        assert s[j] == a[j] && s[i] == a[i];
        assert s[i] in StrongDests(Edges(g, s[j]), m);
      } else if i == |a| {
        assert s[0] == a[0] && s[i] == b[0];
        assert s[i] in StrongDests(Edges(g, s[0]), m);
      } else {
        assert ReachedFromEarlier(g, b, i - |a|, m);
        var j :| 0 <= j < i - |a| && b[i - |a|] in StrongDests(Edges(g, b[j]), m);
        assert s[j + |a|] == b[j] && s[i] == b[i - |a|];
        assert s[i] in StrongDests(Edges(g, s[j + |a|]), m);
      }
    }
  }

  /** Where a recursive `dfsCluster` call leaves the cluster. */
  lemma SplitAppended<T>(cluster: seq<T>, added: seq<T>, before: seq<T>, after: seq<T>)
    requires before == cluster + added && |added| > 0
    requires |before| <= |after| && after[..|before|] == before
    ensures after == cluster + (added + after[|before|..])
    ensures (added + after[|before|..])[0] == added[0]
  {
    assert after == after[..|before|] + after[|before|..];
  }

  /** Every edge of weight at least `m` out of a member of `xs` ends in `visited`. */
  predicate Closed(g: Adjacency, xs: seq<string>, visited: set<string>, m: int) {
    forall x :: x in xs ==> StrongDests(Edges(g, x), m) <= visited
  }

  lemma StrongDestsPrefix(es: seq<Edge>, i: nat, m: int)
    requires i < |es|
    ensures StrongDests(es[..i + 1], m) == StrongDests(es[..i], m) + (if es[i].weight >= m then {es[i].destination} else {})
  {
    assert es[..i + 1] == es[..i] + [es[i]];
  }

  /** The part a recursive `dfsCluster` call appends joins what its caller appended, still closed. */
  lemma ClosedJoin(g: Adjacency, added: seq<string>, more: seq<string>, v: set<string>, v': set<string>, m: int)
    requires |added| > 0 && Closed(g, added[1..], v, m) && Closed(g, more, v', m) && v <= v'
    ensures Closed(g, (added + more)[1..], v', m)
  {
    assert (added + more)[1..] == added[1..] + more;
  }

  /** Once the edges of the first member are all handled, the whole part is closed. */
  lemma ClosedCons(g: Adjacency, added: seq<string>, v: set<string>, m: int)
    requires |added| > 0 && Closed(g, added[1..], v, m) && StrongDests(Edges(g, added[0]), m) <= v
    ensures Closed(g, added, v, m)
  {
    forall x | x in added ensures StrongDests(Edges(g, x), m) <= v {
      if x != added[0] {
        var k :| 0 <= k < |added| && added[k] == x;
        assert added[1..][k - 1] == x;
      }
    }
  }

  /** A visit of a single vertex. */
  lemma ExploredSingle(g: Adjacency, visited: set<string>, node: string, m: int)
    requires node in Names(g) && node !in visited
    ensures Explored(g, visited, [node], visited + {node}, m)
  {
    assert (set x | x in [node]) == {node};
  }

  /** The part appended by a recursive `dfsCluster` call joins the part its caller appended. */
  lemma ExploredConcat(g: Adjacency, v0: set<string>, a: seq<string>, v1: set<string>, b: seq<string>, v2: set<string>, m: int)
    requires Explored(g, v0, a, v1, m) && Explored(g, v1, b, v2, m)
    requires |a| > 0 && |b| > 0 && b[0] in StrongDests(Edges(g, a[0]), m)
    ensures Explored(g, v0, a + b, v2, m)
  {
    NoDuplicatesConcat(a, b);
    ReachedConcat(g, a, b, m);
    assert (set x | x in a + b) == (set x | x in a) + (set x | x in b);
  }

  // ---------------------------------------------------------------------------
  // The graph object

  class Graph {
    var adjacencyList: Adjacency

    constructor ()
      ensures adjacencyList == map[]
    {
      adjacencyList := map[];
    }

    /** `Graph::addEdge`: see `AddEdgeSpec`. */
    method AddEdge(topic1: string, topic2: string)
      modifies this
      ensures adjacencyList == AddEdgeSpec(old(adjacencyList), topic1, topic2)
    {
      if topic1 == topic2 {
        return;
      }
      var es := Edges(adjacencyList, topic1);
      for i := 0 to |es|
        invariant forall j :: 0 <= j < i ==> es[j].destination != topic2
        invariant adjacencyList == old(adjacencyList)
      {
        if es[i].destination == topic2 {
          InDests(es, i);
          adjacencyList := adjacencyList[topic1 := es[i := es[i].(weight := es[i].weight + 1)]];
          return;
        }
      }
      assert !Connected(adjacencyList, topic1, topic2);
      adjacencyList := adjacencyList[topic1 := es + [Edge(topic2, 1)]];
      adjacencyList := adjacencyList[topic2 := Edges(adjacencyList, topic2) + [Edge(topic1, 1)]];
    }

    /** `Graph::addTopic`. */
    method AddTopic(topic: string)
      modifies this
      ensures adjacencyList == AddTopicSpec(old(adjacencyList), topic)
    {
      if topic !in adjacencyList {
        adjacencyList := adjacencyList[topic := []];
      }
    }

    /** `Graph::incrementEdgeWeight`: exactly `addEdge`. */
    method IncrementEdgeWeight(topic1: string, topic2: string)
      modifies this
      ensures adjacencyList == AddEdgeSpec(old(adjacencyList), topic1, topic2)
    {
      AddEdge(topic1, topic2);
    }

    /** `Graph::containsTopic`: whether the topic is a vertex; in a valid graph every destination is one. */
    function ContainsTopic(topic: string): (b: bool)
      reads this
      ensures ValidGraph(adjacencyList) ==> forall t :: Connected(adjacencyList, t, topic) ==> b
    {
      topic in adjacencyList
    }

    function GetAdjacencyList(): Adjacency
      reads this
    {
      adjacencyList
    }

    /** `Graph::setAdjacencyList`: the map is replaced wholesale. */
    method SetAdjacencyList(newList: Adjacency)
      modifies this
      ensures GetAdjacencyList() == newList
    {
      adjacencyList := newList;
    }

    /** `Graph::getAllTopics`: every vertex once, in the map's (unspecified) order. */
    method GetAllTopics() returns (topics: seq<string>)
      ensures forall t :: t in topics <==> t in adjacencyList
      ensures NoDuplicates(topics)
    {
      topics := [];
      var remaining := adjacencyList.Keys;
      while remaining != {}
        invariant remaining <= adjacencyList.Keys
        invariant forall t :: t in topics <==> t in adjacencyList && t !in remaining
        invariant NoDuplicates(topics)
        decreases remaining
      {
        var t :| t in remaining;
        NoDuplicatesConcat(topics, [t]);
        topics := topics + [t];
        remaining := remaining - {t};
      }
    }

    /**
     * `Graph::getRelatedTopics`: a breadth-first walk from `topic` out to
     * `maxDepth` hops. A vertex dequeued at depth `1..maxDepth` emits every
     * neighbour not yet visited; a vertex dequeued below `maxDepth` marks its
     * unvisited neighbours visited and enqueues them. The topics emitted are
     * exactly those 2 to `maxDepth + 1` hops away: the start and its direct
     * neighbours are visited before anything is emitted. The emitted pairs
     * come back ordered by non-increasing weight.
     */
    method GetRelatedTopics(topic: string, maxDepth: int) returns (related: seq<Related>)
      ensures topic !in adjacencyList ==> related == []
      ensures maxDepth <= 0 ==> related == []
      ensures topic in adjacencyList && maxDepth >= 1 ==>
        Firsts(related) == Within(adjacencyList, topic, maxDepth + 1) - Within(adjacencyList, topic, 1)
      ensures SortedDesc(related, RelWeight)
      ensures forall p :: p in related ==> p.0 != topic && p.0 !in Dests(Edges(adjacencyList, topic))
      ensures forall p :: p in related ==> HasEdgeTo(adjacencyList, p.0, p.1)
    {
      if topic !in adjacencyList {
        return [];
      }
      var g := adjacencyList;
      var found := BreadthFirst(g, topic, maxDepth);
      related := SortDesc(found, RelWeight);
      FirstsPermuted(found, related);
      forall p | p in related ensures p in found {
        assert p in multiset(related);
      }
      if maxDepth >= 1 {
        WithinOne(g, topic);
        forall p | p in related ensures p.0 != topic && p.0 !in Dests(Edges(g, topic)) {
          assert p.0 in Firsts(related);
        }
      }
    }

    /**
     * `Graph::dfsCluster`: visit `node`, append it to the cluster, then recurse
     * into every destination reached by an edge of weight at least `minWeight`
     * that is not yet visited. The part appended starts with `node`, is
     * `Explored` from `visited`, and is closed: every strong enough edge out of
     * it ends in a visited vertex.
     */
    method DfsCluster(node: string, visited: set<string>, cluster: seq<string>, minWeight: int)
      returns (visited': set<string>, cluster': seq<string>)
      requires node in Names(adjacencyList) && node !in visited
      ensures |cluster| < |cluster'| && cluster'[..|cluster|] == cluster && cluster'[|cluster|] == node
      ensures Explored(adjacencyList, visited, cluster'[|cluster|..], visited', minWeight)
      ensures Closed(adjacencyList, cluster'[|cluster|..], visited', minWeight)
      decreases |Names(adjacencyList) - visited|
    {
      var g := adjacencyList;
      visited' := visited + {node};
      cluster' := cluster + [node];
      ghost var added := [node];
      ExploredSingle(g, visited, node, minWeight);
      var es := Edges(g, node);
      for i := 0 to |es|
        invariant cluster' == cluster + added && |added| > 0 && added[0] == node
        invariant Explored(g, visited, added, visited', minWeight)
        invariant Closed(g, added[1..], visited', minWeight)
        invariant StrongDests(es[..i], minWeight) <= visited'
      {
        StrongDestsPrefix(es, i, minWeight);
        var d := es[i].destination;
        if es[i].weight >= minWeight && d !in visited' {
          DestsInNames(g, node);
          InDests(es, i);
          assert added[0] in added;
          Descend(Names(g), visited, visited', node);
          ghost var vb := visited';
          var cluster2;
          visited', cluster2 := DfsCluster(d, visited', cluster', minWeight);
          ghost var more := cluster2[|cluster'|..];
          assert es[i] in es && more[0] == d;
          ExploredConcat(g, visited, added, vb, more, visited', minWeight);
          ClosedJoin(g, added, more, vb, visited', minWeight);
          assert more[0] in more;
          SplitAppended(cluster, added, cluster', cluster2);
          added := added + more;
          cluster' := cluster2;
        }
      }
      assert es[..|es|] == es;
      ClosedCons(g, added, visited', minWeight);
      assert cluster'[|cluster|..] == added;
    }

    /**
     * `Graph::findTopicClusters`: a depth-first cluster from every vertex not
     * yet visited, in the map's (unspecified) order, with one visited set shared
     * by all of them; clusters of one topic are dropped and the rest ordered by
     * non-increasing size. The ghost `runs` are the clusters as `dfsCluster`
     * built them, one-topic ones included: they cover every topic, are pairwise
     * disjoint, and every strong enough edge out of a run ends in that run or
     * an earlier one. The clusters returned are the runs of two or more.
     */
    method FindTopicClusters(minWeight: int) returns (clusters: seq<seq<string>>, ghost runs: seq<seq<string>>)
      ensures forall c :: c in clusters ==>
        && |c| >= 2
        && NoDuplicates(c)
        && (forall x :: x in c ==> x in Names(adjacencyList))
        && ReachedInOrder(adjacencyList, c, minWeight)
      ensures forall i, j :: 0 <= i < j < |clusters| ==> forall x :: x in clusters[i] ==> x !in clusters[j]
      ensures SortedDesc(clusters, ClusterSize)
      ensures adjacencyList.Keys <= Members(runs)
      ensures Runs(adjacencyList, runs, minWeight)
      ensures multiset(clusters) == multiset(LongRuns(runs))
    {
      var g := adjacencyList;
      var found: seq<seq<string>> := [];
      var visited: set<string> := {};
      var remaining := g.Keys;
      runs := [];
      while remaining != {}
        invariant forall c :: c in found ==>
          && |c| >= 2
          && NoDuplicates(c)
          && (forall x :: x in c ==> x in Names(g) && x in visited)
          && ReachedInOrder(g, c, minWeight)
        invariant forall i, j :: 0 <= i < j < |found| ==> forall x :: x in found[i] ==> x !in found[j]
        invariant g.Keys - remaining <= visited && visited == Members(runs)
        invariant Runs(g, runs, minWeight) && found == LongRuns(runs)
        decreases remaining
      {
        var topic :| topic in remaining;
        remaining := remaining - {topic};
        if topic !in visited {
          var cluster: seq<string>;
          ghost var visited0 := visited;
          visited, cluster := DfsCluster(topic, visited, [], minWeight);
          assert cluster[0..] == cluster;
          assert visited0 <= visited;
          AppendRun(g, runs, cluster, visited0, visited, minWeight);
          if |cluster| > 1 {
            AppendDisjoint(found, cluster, visited0);
            found := found + [cluster];
          }
          runs := runs + [cluster];
        }
      }
      clusters := SortDesc(found, ClusterSize);
      ClustersPermuted(found, clusters);
    }
  }

  /** Every topic in some run. */
  function Members(runs: seq<seq<string>>): set<string> {
    set c, x | c in runs && x in c :: x
  }

  /** The runs of more than one topic, in order. */
  function LongRuns(runs: seq<seq<string>>): seq<seq<string>> {
    if runs == [] then []
    else
      var last := runs[|runs| - 1];
      LongRuns(runs[..|runs| - 1]) + (if |last| > 1 then [last] else [])
  }

  /**
   * The runs of `findTopicClusters`: pairwise disjoint; each starts at a topic
   * and holds distinct vertices reached in order by edges of weight at least
   * `m`; and every such edge out of a run ends in that run or an earlier one.
   */
  ghost predicate Runs(g: Adjacency, runs: seq<seq<string>>, m: int) {
    && (forall r, r' :: 0 <= r < r' < |runs| ==> forall x :: x in runs[r] ==> x !in runs[r'])
    && (forall r :: 0 <= r < |runs| ==>
          runs[r] != [] && runs[r][0] in g && NoDuplicates(runs[r]) && ReachedInOrder(g, runs[r], m))
    && (forall r :: 0 <= r < |runs| ==> Closed(g, runs[r], Members(runs[..r + 1]), m))
  }

  /** A new run, from a topic not yet visited. */
  lemma AppendRun(g: Adjacency, runs: seq<seq<string>>, c: seq<string>, visited: set<string>, visited': set<string>, m: int)
    requires visited == Members(runs) && Runs(g, runs, m)
    requires Explored(g, visited, c, visited', m) && Closed(g, c, visited', m) && c != [] && c[0] in g
    ensures visited' == Members(runs + [c])
    ensures Runs(g, runs + [c], m)
    ensures LongRuns(runs + [c]) == LongRuns(runs) + (if |c| > 1 then [c] else [])
  {
    var runs' := runs + [c];
    assert runs'[..|runs|] == runs;
    assert runs'[..|runs| + 1] == runs';
    forall x | x in Members(runs') ensures x in visited' {
      var c' :| c' in runs' && x in c';
    }
    forall r | 0 <= r < |runs| ensures runs'[..r + 1] == runs[..r + 1] && runs'[r] == runs[r] {
    }
    forall r, r' | 0 <= r < r' < |runs'| ensures forall x :: x in runs'[r] ==> x !in runs'[r'] {
      if r' == |runs| {
        forall x | x in runs'[r] ensures x !in c {
          assert runs[r] in runs;
        }
      }
    }
  }

  /** Appending a cluster of previously unvisited topics keeps the clusters pairwise disjoint. */
  lemma AppendDisjoint(found: seq<seq<string>>, cluster: seq<string>, visited0: set<string>)
    requires forall c :: c in found ==> forall x :: x in c ==> x in visited0
    requires forall i, j :: 0 <= i < j < |found| ==> forall x :: x in found[i] ==> x !in found[j]
    requires forall x :: x in cluster ==> x !in visited0
    ensures var r := found + [cluster];
      forall i, j :: 0 <= i < j < |r| ==> forall x :: x in r[i] ==> x !in r[j]
  {
    var r := found + [cluster];
    forall i, j, x | 0 <= i < j < |r| && x in r[i] ensures x !in r[j] {
      if j == |found| {
        assert r[i] in found;
      }
    }
  }

  /** Sorting the clusters keeps every property stated of them. */
  lemma ClustersPermuted(found: seq<seq<string>>, clusters: seq<seq<string>>)
    requires multiset(clusters) == multiset(found)
    requires forall c :: c in found ==> |c| >= 2
    requires forall i, j :: 0 <= i < j < |found| ==> forall x :: x in found[i] ==> x !in found[j]
    ensures forall c :: c in clusters ==> c in found
    ensures forall i, j :: 0 <= i < j < |clusters| ==> forall x :: x in clusters[i] ==> x !in clusters[j]
  {
    forall c | c in clusters ensures c in found {
      assert c in multiset(clusters);
    }
    assert NoDuplicates(found) by {
      forall i, j | 0 <= i < j < |found| ensures found[i] != found[j] {
        assert found[i][0] in found[i];
      }
    }
    PermutationNoDuplicates(found, clusters);
    forall i, j, x | 0 <= i < j < |clusters| && x in clusters[i] ensures x !in clusters[j] {
      assert clusters[i] in clusters && clusters[j] in clusters;
      var a :| 0 <= a < |found| && found[a] == clusters[i];
      var b :| 0 <= b < |found| && found[b] == clusters[j];
      assert a != b;
      if a > b {
        assert x in found[a];
      }
    }
  }
}
