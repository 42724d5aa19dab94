/** Weighted directed graphs, walks and distances: the reference against which the route
    computation is proved.  Nothing here comes from the source's algorithm. */
module Graph {

  /** g[u][v] is the cost of the edge from u to v. */
  type Graph<V> = map<V, map<V, nat>>

  /** math.MaxFloat32, counted in units of the smallest positive float32 (two to the power of
      minus 149).  Every finite float32 is a whole number of such units. */
  const MaxCost: nat := 0x1fffffe000000000000000000000000000000000000000000000000000000000000000

  datatype Walk<V> = At(v: V) | Via(v: V, rest: Walk<V>)

  predicate Edge<V(==)>(g: Graph<V>, u: V, v: V) {
    u in g && v in g[u]
  }

  ghost predicate Positive<V(!new)>(g: Graph<V>) {
    forall u, v :: Edge(g, u, v) ==> g[u][v] > 0
  }

  function End<V>(w: Walk<V>): V {
    match w
    case At(v) => v
    case Via(_, rest) => End(rest)
  }

  predicate IsWalk<V(==)>(g: Graph<V>, w: Walk<V>) {
    match w
    case At(_) => true
    case Via(v, rest) => Edge(g, v, rest.v) && IsWalk(g, rest)
  }

  predicate Joins<V(==)>(g: Graph<V>, w: Walk<V>, u: V, v: V) {
    IsWalk(g, w) && w.v == u && End(w) == v
  }

  function Cost<V>(g: Graph<V>, w: Walk<V>): nat
    requires IsWalk(g, w)
  {
    match w
    case At(_) => 0
    case Via(v, rest) => g[v][rest.v] + Cost(g, rest)
  }

  ghost predicate HasWalk<V(!new)>(g: Graph<V>, u: V, v: V, c: nat) {
    exists w :: Joins(g, w, u, v) && Cost(g, w) == c
  }

  /** The least cost from k on of a walk from u to v, capped at MaxCost. */
  ghost function LeastFrom<V(!new)>(g: Graph<V>, u: V, v: V, k: nat): (c: nat)
    requires k <= MaxCost
    ensures k <= c <= MaxCost
    ensures forall i :: k <= i < c ==> !HasWalk(g, u, v, i)
    ensures c < MaxCost ==> HasWalk(g, u, v, c)
    decreases MaxCost - k
  {
    if k == MaxCost || HasWalk(g, u, v, k) then k else LeastFrom(g, u, v, k + 1)
  }

  /** The distance from u to v: the cost of a cheapest walk, or MaxCost when there is none
      cheaper than that. */
  ghost function Dist<V(!new)>(g: Graph<V>, u: V, v: V): (c: nat)
    ensures c <= MaxCost
  {
    LeastFrom(g, u, v, 0)
  }

  /** Dist is a lower bound of every walk's cost, and a walk attains it unless it is MaxCost. */
  lemma DistIsLeast<V(!new)>(g: Graph<V>, u: V, v: V)
    ensures forall w :: Joins(g, w, u, v) ==> Dist(g, u, v) <= Cost(g, w)
    ensures Dist(g, u, v) < MaxCost <==> exists w :: Joins(g, w, u, v) && Cost(g, w) < MaxCost
    ensures Dist(g, u, v) < MaxCost ==> exists w :: Joins(g, w, u, v) && Cost(g, w) == Dist(g, u, v)
  {
    forall w | Joins(g, w, u, v) ensures Dist(g, u, v) <= Cost(g, w) {
      assert HasWalk(g, u, v, Cost(g, w));
    }
    if Dist(g, u, v) < MaxCost {
      assert HasWalk(g, u, v, Dist(g, u, v));
    }
  }

  lemma DistBelow<V(!new)>(g: Graph<V>, w: Walk<V>)
    requires IsWalk(g, w)
    ensures Dist(g, w.v, End(w)) <= Cost(g, w)
  {
    DistIsLeast(g, w.v, End(w));
    assert Joins(g, w, w.v, End(w));
  }

  lemma ShortestWalk<V(!new)>(g: Graph<V>, u: V, v: V) returns (w: Walk<V>)
    requires Dist(g, u, v) < MaxCost
    ensures Joins(g, w, u, v) && Cost(g, w) == Dist(g, u, v)
  {
    DistIsLeast(g, u, v);
    w :| Joins(g, w, u, v) && Cost(g, w) == Dist(g, u, v);
  }

  function Append<V>(w: Walk<V>, t: Walk<V>): Walk<V> {
    match w
    case At(_) => t
    case Via(v, rest) => Via(v, Append(rest, t))
  }

  lemma {:induction false} AppendWalk<V>(g: Graph<V>, w: Walk<V>, t: Walk<V>)
    requires IsWalk(g, w) && IsWalk(g, t) && End(w) == t.v
    ensures Joins(g, Append(w, t), w.v, End(t))
    ensures Cost(g, Append(w, t)) == Cost(g, w) + Cost(g, t)
  {
    if w.Via? {
      AppendWalk(g, w.rest, t);
    }
  }

  lemma Triangle<V(!new)>(g: Graph<V>, a: V, b: V, c: V)
    ensures Dist(g, a, c) <= Dist(g, a, b) + Dist(g, b, c)
  {
    if Dist(g, a, b) < MaxCost && Dist(g, b, c) < MaxCost {
      var w := ShortestWalk(g, a, b);
      var t := ShortestWalk(g, b, c);
      AppendWalk(g, w, t);
      DistBelow(g, Append(w, t));
    }
  }

  lemma EdgeBound<V(!new)>(g: Graph<V>, u: V, v: V)
    requires Edge(g, u, v)
    ensures Dist(g, u, v) <= g[u][v]
  {
    DistBelow(g, Via(u, At(v)));
  }

  lemma DistToSelf<V(!new)>(g: Graph<V>, u: V)
    ensures Dist(g, u, u) == 0
  {
    DistBelow(g, At(u));
  }

  lemma DistPositive<V(!new)>(g: Graph<V>, u: V, v: V)
    requires Positive(g) && u != v
    ensures Dist(g, u, v) > 0
  {
    if Dist(g, u, v) < MaxCost {
      var w := ShortestWalk(g, u, v);
      assert Edge(g, w.v, w.rest.v);
    }
  }

  /** Labels that no edge can improve are below the cost of every walk. */
  ghost predicate Relaxed<V(!new)>(g: Graph<V>, cost: map<V, nat>) {
    && g.Keys <= cost.Keys
    && forall u, v :: Edge(g, u, v) ==> v in cost && cost[v] <= cost[u] + g[u][v]
  }

  lemma {:induction false} RelaxedBelowWalk<V(!new)>(g: Graph<V>, cost: map<V, nat>, w: Walk<V>)
    requires Relaxed(g, cost) && IsWalk(g, w) && w.v in cost
    ensures End(w) in cost && cost[End(w)] <= cost[w.v] + Cost(g, w)
  {
    if w.Via? {
      assert Edge(g, w.v, w.rest.v);
      RelaxedBelowWalk(g, cost, w.rest);
    }
  }

  lemma RelaxedBelowDist<V(!new)>(g: Graph<V>, cost: map<V, nat>, u: V, v: V)
    requires Relaxed(g, cost) && u in cost && v in cost && cost[u] == 0 && cost[v] <= MaxCost
    ensures cost[v] <= Dist(g, u, v)
  {
    if Dist(g, u, v) < MaxCost {
      var w := ShortestWalk(g, u, v);
      RelaxedBelowWalk(g, cost, w);
    }
  }

  /** p starts a shortest walk from u to d. */
  ghost predicate FirstHop<V(!new)>(g: Graph<V>, u: V, d: V, p: V) {
    Edge(g, u, p) && g[u][p] + Dist(g, p, d) == Dist(g, u, d) < MaxCost
  }

  lemma FirstHopStartsShortestWalk<V(!new)>(g: Graph<V>, u: V, d: V, p: V)
    ensures FirstHop(g, u, d, p) <==>
            exists rest :: Joins(g, Via(u, rest), u, d) && rest.v == p &&
              Cost(g, Via(u, rest)) == Dist(g, u, d) < MaxCost
  {
    if FirstHop(g, u, d, p) {
      var rest := ShortestWalk(g, p, d);
      assert Joins(g, Via(u, rest), u, d);
    }
    forall rest | Joins(g, Via(u, rest), u, d) && rest.v == p && Cost(g, Via(u, rest)) == Dist(g, u, d) < MaxCost
      ensures FirstHop(g, u, d, p)
    {
      DistBelow(g, rest);
      EdgeBound(g, u, p);
      Triangle(g, u, p, d);
    }
  }

  // ----- several targets -----------------------------------------------------------------

  /** The distance to the nearest target. */
  ghost function DistTo<V(!new)>(g: Graph<V>, u: V, targets: set<V>): (c: nat)
    ensures c <= MaxCost
    ensures forall n :: n in targets ==> c <= Dist(g, u, n)
    ensures c == MaxCost || exists n :: n in targets && Dist(g, u, n) == c
  {
    if targets == {} then MaxCost else
      var n :| n in targets;
      var rest := DistTo(g, u, targets - {n});
      if Dist(g, u, n) <= rest then Dist(g, u, n) else rest
  }

  lemma DistToOne<V(!new)>(g: Graph<V>, u: V, d: V)
    ensures DistTo(g, u, {d}) == Dist(g, u, d)
  {
    assert d in {d};
  }

  /** p starts a shortest walk from u to a nearest target. */
  ghost predicate NearHop<V(!new)>(g: Graph<V>, u: V, targets: set<V>, p: V) {
    exists n :: n in targets && FirstHop(g, u, n, p) && Dist(g, u, n) == DistTo(g, u, targets)
  }

  /** Such a hop shortens the distance to the nearest target by exactly its own cost. */
  lemma NearHopDescends<V(!new)>(g: Graph<V>, u: V, targets: set<V>, p: V)
    requires NearHop(g, u, targets, p)
    ensures Edge(g, u, p) && g[u][p] + DistTo(g, p, targets) == DistTo(g, u, targets) < MaxCost
  {
    var n :| n in targets && FirstHop(g, u, n, p) && Dist(g, u, n) == DistTo(g, u, targets);
    assert DistTo(g, p, targets) <= Dist(g, p, n);
    var m :| m in targets && Dist(g, p, m) == DistTo(g, p, targets);
    EdgeBound(g, u, p);
    Triangle(g, u, p, m);
  }

  lemma FirstHopIsNear<V(!new)>(g: Graph<V>, u: V, d: V, p: V)
    ensures FirstHop(g, u, d, p) <==> NearHop(g, u, {d}, p)
  {
    DistToOne(g, u, d);
    assert d in {d};
  }

  // ----- two graphs ----------------------------------------------------------------------

  /** The nodes are closed under the edges of h, and each of these is an edge of g at the same
      cost. */
  ghost predicate EdgesCarryOver<V(!new)>(h: Graph<V>, g: Graph<V>, nodes: set<V>) {
    forall x, y :: x in nodes && Edge(h, x, y) ==> y in nodes && Edge(g, x, y) && g[x][y] == h[x][y]
  }

  lemma {:induction false} WalkCarriesOver<V(!new)>(h: Graph<V>, g: Graph<V>, nodes: set<V>, w: Walk<V>)
    requires EdgesCarryOver(h, g, nodes) && w.v in nodes && IsWalk(h, w)
    ensures IsWalk(g, w) && Cost(g, w) == Cost(h, w)
  {
    if w.Via? {
      assert Edge(h, w.v, w.rest.v);
      WalkCarriesOver(h, g, nodes, w.rest);
    }
  }

  /** Conversely every edge of g from a node is one of h, except that g may have edges from a node
      to itself. */
  ghost predicate SameButLoops<V(!new)>(g: Graph<V>, h: Graph<V>, nodes: set<V>) {
    && EdgesCarryOver(h, g, nodes)
    && (forall x, y :: x in nodes && Edge(g, x, y) && y != x ==> Edge(h, x, y))
  }

  /** Leaving out the loops of a walk keeps its ends and does not make it dearer. */
  lemma {:induction false} WalkWithoutLoops<V(!new)>(g: Graph<V>, h: Graph<V>, nodes: set<V>, w: Walk<V>)
    returns (t: Walk<V>)
    requires SameButLoops(g, h, nodes) && w.v in nodes && IsWalk(g, w)
    ensures Joins(h, t, w.v, End(w)) && Cost(h, t) <= Cost(g, w)
  {
    if w.At? {
      t := w;
    } else if w.rest.v == w.v {
      t := WalkWithoutLoops(g, h, nodes, w.rest);
    } else {
      assert Edge(g, w.v, w.rest.v) && Edge(h, w.v, w.rest.v);
      var rest := WalkWithoutLoops(g, h, nodes, w.rest);
      t := Via(w.v, rest);
    }
  }

  lemma LoopsKeepDistances<V(!new)>(g: Graph<V>, h: Graph<V>, nodes: set<V>, u: V, d: V)
    requires SameButLoops(g, h, nodes) && u in nodes
    ensures Dist(g, u, d) == Dist(h, u, d)
  {
    if Dist(h, u, d) < MaxCost {
      var w := ShortestWalk(h, u, d);
      WalkCarriesOver(h, g, nodes, w);
      DistBelow(g, w);
    }
    if Dist(g, u, d) < MaxCost {
      var w := ShortestWalk(g, u, d);
      var t := WalkWithoutLoops(g, h, nodes, w);
      DistBelow(h, t);
    }
  }

  /** A loop costs more than nothing, so it starts no shortest walk. */
  lemma LoopsKeepFirstHops<V(!new)>(g: Graph<V>, h: Graph<V>, nodes: set<V>, u: V, d: V, p: V)
    requires SameButLoops(g, h, nodes) && Positive(g) && u in nodes
    ensures FirstHop(g, u, d, p) <==> FirstHop(h, u, d, p)
  {
    LoopsKeepDistances(g, h, nodes, u, d);
    if FirstHop(g, u, d, p) {
      assert Edge(g, u, p) && p != u;
      assert Edge(h, u, p);
      LoopsKeepDistances(g, h, nodes, p, d);
    }
    if FirstHop(h, u, d, p) {
      assert Edge(h, u, p) && Edge(g, u, p);
      LoopsKeepDistances(g, h, nodes, p, d);
    }
  }

  lemma LoopsKeepDistTo<V(!new)>(g: Graph<V>, h: Graph<V>, nodes: set<V>, u: V, targets: set<V>)
    requires SameButLoops(g, h, nodes) && u in nodes
    ensures DistTo(g, u, targets) == DistTo(h, u, targets)
  {
    forall n | n in targets ensures Dist(g, u, n) == Dist(h, u, n) {
      LoopsKeepDistances(g, h, nodes, u, n);
    }
  }

  lemma LoopsKeepNearHops<V(!new)>(g: Graph<V>, h: Graph<V>, nodes: set<V>, u: V, targets: set<V>, p: V)
    requires SameButLoops(g, h, nodes) && Positive(g) && u in nodes
    ensures NearHop(g, u, targets, p) <==> NearHop(h, u, targets, p)
  {
    LoopsKeepDistTo(g, h, nodes, u, targets);
    forall n | n in targets
      ensures FirstHop(g, u, n, p) <==> FirstHop(h, u, n, p)
      ensures Dist(g, u, n) == Dist(h, u, n)
    {
      LoopsKeepFirstHops(g, h, nodes, u, n, p);
      LoopsKeepDistances(g, h, nodes, u, n);
    }
  }
}
