/** The relaxation loop of recalculate (pkg/router/router.go), for nodes of any type and for
    every order in which the queue may give its elements back. */
module Search {
  import opened Graph
  import opened Optional

  /** The caller's side: positive costs, and edges lead to nodes of the graph. */
  ghost predicate GoodGraph<V(!new)>(g: Graph<V>) {
    Positive(g) && forall u, v :: Edge(g, u, v) ==> v in g
  }

  // ----- termination measure -------------------------------------------------------------

  /** Sum of the labels of the listed nodes; the outer component of the loop's measure. */
  ghost function Total<V>(order: seq<V>, cost: map<V, nat>): nat {
    if order == [] then 0
    else (if order[0] in cost then cost[order[0]] else 0) + Total(order[1..], cost)
  }

  lemma {:induction false} TotalFalls<V>(order: seq<V>, cost: map<V, nat>, v: V, c: nat)
    requires v in cost && c < cost[v]
    ensures Total(order, cost[v := c]) <= Total(order, cost)
    ensures v in order ==> Total(order, cost[v := c]) < Total(order, cost)
  {
    if order != [] {
      TotalFalls(order[1..], cost, v, c);
    }
  }

  ghost predicate Lists<V>(order: seq<V>, g: Graph<V>) {
    forall v :: v in g ==> v in order
  }

  lemma Enumerate<V>(s: set<V>) returns (order: seq<V>)
    ensures forall v :: v in s ==> v in order
  {
    order := [];
    var rest := s;
    while rest != {}
      invariant forall v :: v in s ==> v in order || v in rest
    {
      var v :| v in rest;
      order := order + [v];
      rest := rest - {v};
    }
  }

  // ----- invariants ----------------------------------------------------------------------

  /** What holds of the labels throughout the search: they stay above the distances, and a
      predecessor edge accounts for at most the label of its head. */
  ghost predicate Labelled<V(!new)>(g: Graph<V>, me: V, dist: map<V, nat>, cost: map<V, nat>, prev: map<V, Option<V>>) {
    && dist.Keys == cost.Keys == prev.Keys == g.Keys
    && (me in g ==> cost[me] == 0 && prev[me].None?)
    && (forall v :: v in g ==> dist[v] <= cost[v] <= MaxCost)
    && (forall v :: v in g && v != me ==> (prev[v].None? <==> cost[v] == MaxCost))
    && (forall u, v :: Precedes(prev, u, v) ==> TightAtMost(g, cost, u, v))
  }

  predicate Precedes<V(==)>(prev: map<V, Option<V>>, u: V, v: V) {
    v in prev && prev[v] == Some(u)
  }

  predicate TightAtMost<V(==)>(g: Graph<V>, cost: map<V, nat>, u: V, v: V) {
    Edge(g, u, v) && u in cost && v in cost && cost[u] + g[u][v] <= cost[v]
  }

  /** Every edge is relaxed, apart from those out of queued nodes and those from node to left. */
  ghost predicate RelaxedExcept<V(!new)>(g: Graph<V>, cost: map<V, nat>, queue: set<V>, node: V, left: set<V>)
    requires cost.Keys == g.Keys
  {
    forall u, v :: Edge(g, u, v) && v in g && u !in queue && !(u == node && v in left) ==> cost[v] <= cost[u] + g[u][v]
  }

  /** A lower bound that no edge contradicts. */
  ghost predicate Feasible<V(!new)>(g: Graph<V>, dist: map<V, nat>) {
    dist.Keys == g.Keys && forall u, v :: Edge(g, u, v) && v in g ==> dist[v] <= dist[u] + g[u][v]
  }

  ghost function Distances<V(!new)>(g: Graph<V>, me: V): map<V, nat> {
    map v | v in g :: Dist(g, me, v)
  }

  lemma DistancesFeasible<V(!new)>(g: Graph<V>, me: V)
    ensures Feasible(g, Distances(g, me))
  {
    forall u, v | Edge(g, u, v) && v in g ensures Dist(g, me, v) <= Dist(g, me, u) + g[u][v] {
      EdgeBound(g, u, v);
      Triangle(g, me, u, v);
    }
  }

  lemma InitialLabels<V(!new)>(g: Graph<V>, me: V, cost: map<V, nat>, prev: map<V, Option<V>>)
    requires cost == map v | v in g :: if v == me then 0 else MaxCost
    requires prev == map v | v in g :: None
    ensures Labelled(g, me, Distances(g, me), cost, prev)
  {
    DistToSelf(g, me);
  }

  // ----- the loops -----------------------------------------------------------------------

  lemma RelaxKeepsLabels<V(!new)>(g: Graph<V>, me: V, dist: map<V, nat>, cost: map<V, nat>, prev: map<V, Option<V>>,
                                  u: V, v: V)
    requires GoodGraph(g) && Feasible(g, dist) && Labelled(g, me, dist, cost, prev)
    requires Edge(g, u, v) && cost[u] + g[u][v] < cost[v]
    ensures Labelled(g, me, dist, cost[v := cost[u] + g[u][v]], prev[v := Some(u)])
  {
    var cost', prev' := cost[v := cost[u] + g[u][v]], prev[v := Some(u)];
    forall x, y | Precedes(prev', x, y) ensures TightAtMost(g, cost', x, y) {
      assert y != v ==> Precedes(prev, x, y);
    }
  }

  lemma RelaxKeepsSettled<V(!new)>(g: Graph<V>, cost: map<V, nat>, queue: set<V>, u: V, v: V, left: set<V>)
    requires GoodGraph(g) && cost.Keys == g.Keys && RelaxedExcept(g, cost, queue, u, left)
    requires Edge(g, u, v) && cost[u] + g[u][v] < cost[v]
    ensures RelaxedExcept(g, cost[v := cost[u] + g[u][v]], queue + {v}, u, left - {v})
  {
  }

  /** The body of the inner loop: one edge. */
  method RelaxEdge<V(!new,==)>(g: Graph<V>, me: V, ghost dist: map<V, nat>, node: V, neighbor: V,
                               cost0: map<V, nat>, prev0: map<V, Option<V>>, queue0: set<V>, ghost left: set<V>,
                               ghost order: seq<V>)
    returns (cost: map<V, nat>, prev: map<V, Option<V>>, queue: set<V>)
    requires GoodGraph(g) && Feasible(g, dist) && Labelled(g, me, dist, cost0, prev0) && Lists(order, g)
    requires Edge(g, node, neighbor) && RelaxedExcept(g, cost0, queue0, node, left)
    ensures Labelled(g, me, dist, cost, prev) && RelaxedExcept(g, cost, queue, node, left - {neighbor})
    ensures (cost == cost0 && queue == queue0) || Total(order, cost) < Total(order, cost0)
  {
    cost, prev, queue := cost0, prev0, queue0;
    var pathCost := cost[node] + g[node][neighbor];
    if pathCost < cost[neighbor] {
      TotalFalls(order, cost, neighbor, pathCost);
      RelaxKeepsLabels(g, me, dist, cost, prev, node, neighbor);
      RelaxKeepsSettled(g, cost, queue, node, neighbor, left);
      cost := cost[neighbor := pathCost];
      prev := prev[neighbor := Some(node)];
      queue := queue + {neighbor};
    }
  }

  /** The body of the outer loop: the edges out of a popped node. */
  method RelaxFrom<V(!new,==)>(g: Graph<V>, me: V, ghost dist: map<V, nat>, node: V,
                               cost0: map<V, nat>, prev0: map<V, Option<V>>, queue0: set<V>, ghost order: seq<V>)
    returns (cost: map<V, nat>, prev: map<V, Option<V>>, queue: set<V>)
    requires GoodGraph(g) && Feasible(g, dist) && Labelled(g, me, dist, cost0, prev0) && Lists(order, g)
    requires node in g && RelaxedExcept(g, cost0, queue0, node, g[node].Keys)
    ensures Labelled(g, me, dist, cost, prev) && RelaxedExcept(g, cost, queue, node, {})
    ensures (cost == cost0 && queue == queue0) || Total(order, cost) < Total(order, cost0)
  {
    cost, prev, queue := cost0, prev0, queue0;
    var left := g[node].Keys;
    while left != {}
      invariant left <= g[node].Keys
      invariant Labelled(g, me, dist, cost, prev) && RelaxedExcept(g, cost, queue, node, left)
      invariant (cost == cost0 && queue == queue0) || Total(order, cost) < Total(order, cost0)
    {
      var neighbor :| neighbor in left;
      cost, prev, queue := RelaxEdge(g, me, dist, node, neighbor, cost, prev, queue, left, order);
      left := left - {neighbor};
    }
  }

  /** The queue loop.  Insert makes an element queued; Pop may return any queued element, so
      the result holds for every queue discipline. */
  method DrainQueue<V(!new,==)>(g: Graph<V>, me: V, ghost dist: map<V, nat>, cost0: map<V, nat>,
                                prev0: map<V, Option<V>>)
    returns (cost: map<V, nat>, prev: map<V, Option<V>>)
    requires GoodGraph(g) && Feasible(g, dist) && Labelled(g, me, dist, cost0, prev0)
    ensures Labelled(g, me, dist, cost, prev) && RelaxedExcept(g, cost, {}, me, {})
  {
    cost, prev := cost0, prev0;
    var queue := {me} + g.Keys;
    ghost var order := Enumerate(g.Keys);
    while queue != {}
      invariant Labelled(g, me, dist, cost, prev) && RelaxedExcept(g, cost, queue, me, {})
      decreases Total(order, cost), |queue|
    {
      var node :| node in queue;
      queue := queue - {node};
      if node in g {
        cost, prev, queue := RelaxFrom(g, me, dist, node, cost, prev, queue, order);
      }
    }
  }

  /** The search of recalculate: exact distances, and predecessor edges that account for them
      exactly, including predecessors whose own label fell after the edge was recorded. */
  method ShortestPaths<V(!new,==)>(g: Graph<V>, me: V) returns (cost: map<V, nat>, prev: map<V, Option<V>>)
    requires GoodGraph(g)
    ensures Labelled(g, me, Distances(g, me), cost, prev)
    ensures cost == Distances(g, me)
    ensures forall u, v :: Precedes(prev, u, v) ==> Edge(g, u, v) && cost[u] + g[u][v] == cost[v]
  {
    cost := map v | v in g :: if v == me then 0 else MaxCost;
    prev := map v | v in g :: None;
    InitialLabels(g, me, cost, prev);
    DistancesFeasible(g, me);
    cost, prev := DrainQueue(g, me, Distances(g, me), cost, prev);
    SettledIsTight(g, me, Distances(g, me), cost, prev);
    SettledIsExact(g, me, cost);
  }

  lemma SettledIsTight<V(!new)>(g: Graph<V>, me: V, dist: map<V, nat>, cost: map<V, nat>, prev: map<V, Option<V>>)
    requires Labelled(g, me, dist, cost, prev) && RelaxedExcept(g, cost, {}, me, {})
    ensures forall u, v :: Precedes(prev, u, v) ==> Edge(g, u, v) && cost[u] + g[u][v] == cost[v]
  {
  }

  lemma SettledIsExact<V(!new)>(g: Graph<V>, me: V, cost: map<V, nat>)
    requires GoodGraph(g) && cost.Keys == g.Keys && RelaxedExcept(g, cost, {}, me, {})
    requires forall v :: v in g ==> Dist(g, me, v) <= cost[v] <= MaxCost
    requires me in g ==> cost[me] == 0
    ensures cost == Distances(g, me)
  {
    assert Relaxed(g, cost);
    forall v | v in g ensures cost[v] == Dist(g, me, v) {
      if me in g {
        RelaxedBelowDist(g, cost, me, v);
      } else if Dist(g, me, v) < MaxCost {
        var w := ShortestWalk(g, me, v);
        assert false;
      }
    }
  }
}
