/** Forwarding across the whole network: when every node has recalculated from the same
    database, following NextHop from node to node is loop free. */
module LoopFreedom {
  import opened Address
  import opened Graph
  import opened Optional
  import opened Routes
  import opened Router

  /** Every node holds a policy that is right for the one database. */
  ghost predicate AllRecalculated(db: Database, policies: map<IP, Policy>) {
    && ValidDatabase(db) && CIDRDatabase(db)
    && policies.Keys == db.Keys
    && forall u :: u in db ==> exists g :: CorrectPolicy(db, g, u, policies[u])
  }

  /** The same, with one graph for all nodes. */
  ghost predicate Converged(db: Database, g: Graph<IP>, policies: map<IP, Policy>) {
    && ValidDatabase(db) && CIDRDatabase(db) && IsInterconnect(db, g)
    && policies.Keys == db.Keys
    && forall u :: u in db ==> CorrectPolicy(db, g, u, policies[u])
  }

  /** Without ambiguous edge costs the nodes cannot disagree about the graph. */
  lemma UnambiguousConverges(db: Database, g: Graph<IP>, policies: map<IP, Policy>)
    requires AllRecalculated(db, policies) && Unambiguous(db) && IsInterconnect(db, g)
    ensures Converged(db, g, policies)
  {
    forall u | u in db ensures CorrectPolicy(db, g, u, policies[u]) {
      var h :| CorrectPolicy(db, h, u, policies[u]);
      InterconnectUnique(db, g, h);
    }
  }

  /** Whatever the lookup of address a gives at v, it starts a shortest walk to a nearest target. */
  ghost predicate HopLeads(g: Graph<IP>, policy: Policy, v: IP, a: IP, targets: set<IP>) {
    forall r :: IsNextHop(policy, a, r) ==> r.Some? && NearHop(g, v, targets, r.value)
  }

  /** So it is at every node that can reach a target. */
  ghost predicate LeadsTo(g: Graph<IP>, policies: map<IP, Policy>, a: IP, targets: set<IP>) {
    forall v :: v in policies && v !in targets && DistTo(g, v, targets) < MaxCost ==>
      HopLeads(g, policies[v], v, a, targets)
  }

  lemma PolicyOf(db: Database, g: Graph<IP>, policies: map<IP, Policy>, v: IP)
    requires Converged(db, g, policies) && v in policies
    ensures v in db && CorrectPolicy(db, g, v, policies[v])
  {
  }

  lemma NodeHop(db: Database, g: Graph<IP>, d: IP, v: IP, policy: Policy)
    requires ValidDatabase(db) && CIDRDatabase(db) && CorrectPolicy(db, g, v, policy)
    requires d in db && v != d && Dist(g, v, d) < MaxCost
    ensures HopLeads(g, policy, v, d, {d})
  {
    forall r | IsNextHop(policy, d, r) ensures r.Some? && NearHop(g, v, {d}, r.value) {
      NextHopOfNode(db, g, v, policy, d, r);
      FirstHopIsNear(g, v, d, r.value);
    }
  }

  lemma NodeAddressLeadsToNode(db: Database, g: Graph<IP>, policies: map<IP, Policy>, d: IP)
    requires Converged(db, g, policies) && d in db
    ensures LeadsTo(g, policies, d, {d})
  {
    forall v | v in policies && v !in {d} && DistTo(g, v, {d}) < MaxCost ensures HopLeads(g, policies[v], v, d, {d}) {
      PolicyOf(db, g, policies, v);
      DistToOne(g, v, d);
      NodeHop(db, g, d, v, policies[v]);
    }
  }

  // ----- trajectories --------------------------------------------------------------------

  /** w is the way a packet for address a takes from node to node until a target has it. */
  ghost predicate Trajectory(policies: map<IP, Policy>, a: IP, targets: set<IP>, w: Walk<IP>) {
    match w
    case At(_) => true
    case Via(v, rest) =>
      v in policies && v !in targets && IsNextHop(policies[v], a, Some(rest.v)) &&
        Trajectory(policies, a, targets, rest)
  }

  function Links<V>(w: Walk<V>): nat {
    match w
    case At(_) => 0
    case Via(_, rest) => 1 + Links(rest)
  }

  function Visited<V>(w: Walk<V>): set<V> {
    match w
    case At(v) => {v}
    case Via(v, rest) => {v} + Visited(rest)
  }

  /** No node occurs twice. */
  predicate Simple<V(==)>(w: Walk<V>) {
    match w
    case At(_) => true
    case Via(v, rest) => v !in Visited(rest) && Simple(rest)
  }

  lemma HopDescends(g: Graph<IP>, policies: map<IP, Policy>, a: IP, targets: set<IP>, v: IP, p: IP)
    requires Positive(g) && LeadsTo(g, policies, a, targets)
    requires v in policies && v !in targets && DistTo(g, v, targets) < MaxCost && IsNextHop(policies[v], a, Some(p))
    ensures Edge(g, v, p) && g[v][p] > 0 && g[v][p] + DistTo(g, p, targets) == DistTo(g, v, targets)
  {
    assert HopLeads(g, policies[v], v, a, targets);
    NearHopDescends(g, v, targets, p);
  }

  /** On every trajectory, of any length, each link shortens the exact distance to the nearest
      target by its own cost. */
  lemma {:induction false} TrajectoryDescends(g: Graph<IP>, policies: map<IP, Policy>, a: IP, targets: set<IP>,
                                              w: Walk<IP>)
    requires Positive(g) && LeadsTo(g, policies, a, targets)
    requires Trajectory(policies, a, targets, w) && DistTo(g, w.v, targets) < MaxCost
    ensures IsWalk(g, w) && Cost(g, w) + DistTo(g, End(w), targets) == DistTo(g, w.v, targets)
    ensures forall v :: v in Visited(w) ==> DistTo(g, v, targets) <= DistTo(g, w.v, targets)
    ensures Simple(w)
  {
    if w.Via? {
      HopDescends(g, policies, a, targets, w.v, w.rest.v);
      TrajectoryDescends(g, policies, a, targets, w.rest);
    }
  }

  lemma {:induction false} WalkStaysInside(g: Graph<IP>, nodes: set<IP>, w: Walk<IP>)
    requires IsWalk(g, w) && w.v in nodes && EdgesInside(g, nodes)
    ensures Visited(w) <= nodes
  {
    if w.Via? {
      assert Edge(g, w.v, w.rest.v);
      WalkStaysInside(g, nodes, w.rest);
    }
  }

  lemma {:induction false} SimpleVisits<V>(w: Walk<V>)
    requires Simple(w)
    ensures |Visited(w)| == Links(w) + 1
  {
    if w.Via? {
      SimpleVisits(w.rest);
    }
  }

  ghost predicate EdgesInside(g: Graph<IP>, nodes: set<IP>) {
    forall u, v :: u in nodes && Edge(g, u, v) ==> v in nodes
  }

  /** Loop freedom: a packet's way visits no node twice and has at most |nodes| - 1 links, and
      when it has arrived at a target, that is a nearest one and the way is a shortest walk. */
  lemma LoopFree(nodes: set<IP>, g: Graph<IP>, policies: map<IP, Policy>, a: IP, targets: set<IP>, w: Walk<IP>)
    requires Positive(g) && EdgesInside(g, nodes) && LeadsTo(g, policies, a, targets)
    requires w.v in nodes && DistTo(g, w.v, targets) < MaxCost && Trajectory(policies, a, targets, w)
    ensures IsWalk(g, w) && Simple(w) && Links(w) <= |nodes| - 1
    ensures End(w) in targets ==> Cost(g, w) == Dist(g, w.v, End(w)) == DistTo(g, w.v, targets)
    ensures End(w) in nodes && DistTo(g, End(w), targets) < MaxCost
  {
    TrajectoryDescends(g, policies, a, targets, w);
    WalkStaysInside(g, nodes, w);
    SimpleVisits(w);
    EndVisited(w);
    SubsetSize(Visited(w), nodes);
    DistToSelf(g, End(w));
    DistBelow(g, w);
  }

  lemma {:induction false} EndVisited<V>(w: Walk<V>)
    ensures End(w) in Visited(w)
  {
    if w.Via? {
      EndVisited(w.rest);
    }
  }

  /** Delivery: from every node that can reach a target the packet does arrive at one. */
  lemma {:induction false} Arrives(nodes: set<IP>, g: Graph<IP>, policies: map<IP, Policy>, a: IP, targets: set<IP>,
                                   u: IP) returns (w: Walk<IP>)
    requires Positive(g) && EdgesInside(g, nodes) && policies.Keys == nodes && LeadsTo(g, policies, a, targets)
    requires u in nodes && DistTo(g, u, targets) < MaxCost
    ensures w.v == u && End(w) in targets && Trajectory(policies, a, targets, w)
    decreases DistTo(g, u, targets)
  {
    if u in targets {
      w := At(u);
    } else {
      var r := NextHopExists(policies[u], a);
      assert HopLeads(g, policies[u], u, a, targets);
      HopDescends(g, policies, a, targets, u, r.value);
      var rest := Arrives(nodes, g, policies, a, targets, r.value);
      w := Via(u, rest);
    }
  }

  /** w takes a packet for a from u to a nearest target, along a shortest walk of at most
      |nodes| - 1 links that visits no node twice. */
  ghost predicate Delivers(nodes: set<IP>, g: Graph<IP>, policies: map<IP, Policy>, a: IP, targets: set<IP>, u: IP,
                           w: Walk<IP>) {
    && w.v == u && End(w) in targets && Trajectory(policies, a, targets, w)
    && Simple(w) && Links(w) <= |nodes| - 1 && IsWalk(g, w)
    && Cost(g, w) == Dist(g, u, End(w)) == DistTo(g, u, targets)
  }

  /** Both together. */
  lemma Delivery(nodes: set<IP>, g: Graph<IP>, policies: map<IP, Policy>, a: IP, targets: set<IP>, u: IP)
    returns (w: Walk<IP>)
    requires Positive(g) && EdgesInside(g, nodes) && policies.Keys == nodes && LeadsTo(g, policies, a, targets)
    requires u in nodes && DistTo(g, u, targets) < MaxCost
    ensures Delivers(nodes, g, policies, a, targets, u, w)
  {
    w := Arrives(nodes, g, policies, a, targets, u);
    LoopFree(nodes, g, policies, a, targets, w);
  }

  lemma DeliveryToOne(nodes: set<IP>, g: Graph<IP>, policies: map<IP, Policy>, a: IP, d: IP, u: IP)
    returns (w: Walk<IP>)
    requires Positive(g) && EdgesInside(g, nodes) && policies.Keys == nodes && LeadsTo(g, policies, a, {d})
    requires u in nodes && Dist(g, u, d) < MaxCost
    ensures w.v == u && End(w) == d && Trajectory(policies, a, {d}, w)
    ensures Simple(w) && Links(w) <= |nodes| - 1 && IsWalk(g, w) && Cost(g, w) == Dist(g, u, d)
  {
    DistToOne(g, u, d);
    w := Delivery(nodes, g, policies, a, {d}, u);
  }

  lemma GraphIsGood(db: Database, g: Graph<IP>)
    requires ValidDatabase(db) && IsInterconnect(db, g)
    ensures Positive(g) && EdgesInside(g, db.Keys)
  {
    InterconnectPositive(db, g);
  }

  /** Following NextHop from any node to the address of any node it can reach: the packet
      arrives, along a shortest walk, within |nodes| - 1 links, visiting no node twice. */
  lemma NodeDelivery(db: Database, g: Graph<IP>, policies: map<IP, Policy>, u: IP, d: IP) returns (w: Walk<IP>)
    requires AllRecalculated(db, policies) && Unambiguous(db) && IsInterconnect(db, g)
    requires u in db && d in db && Dist(g, u, d) < MaxCost
    ensures w.v == u && End(w) == d && Trajectory(policies, d, {d}, w)
    ensures Simple(w) && Links(w) <= |db| - 1 && IsWalk(g, w) && Cost(g, w) == Dist(g, u, d)
  {
    UnambiguousConverges(db, g, policies);
    NodeAddressLeadsToNode(db, g, policies, d);
    GraphIsGood(db, g);
    w := DeliveryToOne(db.Keys, g, policies, d, d, u);
  }

  // ----- addresses behind nodes ----------------------------------------------------------

  /** Address a is no node's, s is the longest of the advertised subnets that contain it, and exactly
      the given nodes advertise s.  Wider subnets may be anyone's. */
  ghost predicate BehindVia(db: Database, a: IP, s: Subnet, advertisers: set<IP>) {
    && |a| == 16 && a !in db && IsSubnet(db, s) && Contains(s, a)
    && (forall t :: IsSubnet(db, t) && Contains(t, a) ==> Prefix(t) <= Prefix(s))
    && (forall n :: n in advertisers <==> Advertises(db, n, s))
  }

  ghost predicate Behind(db: Database, a: IP, advertisers: set<IP>) {
    exists s :: BehindVia(db, a, s, advertisers)
  }

  ghost predicate AllRemote<V(!new)>(g: Graph<V>, v: V, advertisers: set<V>) {
    forall n :: n in advertisers ==> n != v && Dist(g, v, n) < MaxCost
  }

  /** The subnet loop can end up with first hop p: it leads towards some advertiser, and every
      advertiser may have got a first hop that is no nearer. */
  ghost predicate CanWin<V(!new)>(g: Graph<V>, v: V, advertisers: set<V>, p: V) {
    && (exists n :: n in advertisers && FirstHop(g, v, n, p))
    && (forall m :: m in advertisers ==> exists q :: FirstHop(g, v, m, q) && Dist(g, v, p) <= Dist(g, v, q))
  }

  /** All advertisers are remote and reachable, and every first hop that can win leads to a nearest
      one: a condition on the graph alone. */
  ghost predicate Steers<V(!new)>(g: Graph<V>, v: V, advertisers: set<V>) {
    && AllRemote(g, v, advertisers)
    && (forall p :: CanWin(g, v, advertisers, p) ==> NearHop(g, v, advertisers, p))
  }

  /** The condition holds at every node that is no advertiser and can reach one. */
  ghost predicate AllSteer<V(!new)>(nodes: set<V>, g: Graph<V>, advertisers: set<V>) {
    forall v :: v in nodes && v !in advertisers && DistTo(g, v, advertisers) < MaxCost ==> Steers(g, v, advertisers)
  }

  /** The entry of a subnet is a first hop that can win. */
  lemma EntryCanWin(db: Database, g: Graph<IP>, v: IP, policy: Policy, s: Subnet, advertisers: set<IP>)
    requires CorrectPolicy(db, g, v, policy) && IsSubnet(db, s) && s in policy
    requires forall n :: n in advertisers <==> Advertises(db, n, s)
    ensures CanWin(g, v, advertisers, policy[s])
  {
    SubnetRouteExactly(db, g, v, policy, s);
    forall m | m in advertisers ensures exists q :: FirstHop(g, v, m, q) && Dist(g, v, policy[s]) <= Dist(g, v, q) {
      assert Advertises(db, m, s);
      HostEntryOf(db, g, v, policy, m);
    }
  }

  lemma HostEntryOf(db: Database, g: Graph<IP>, v: IP, policy: Policy, c: IP)
    requires CorrectPolicy(db, g, v, policy) && c in db && v != c && Dist(g, v, c) < MaxCost
    ensures HostOnly(c) in policy && FirstHop(g, v, c, policy[HostOnly(c)])
  {
  }

  lemma MatchIsSubnet(db: Database, g: Graph<IP>, v: IP, policy: Policy, a: IP, k: Subnet)
    requires ValidDatabase(db) && CorrectPolicy(db, g, v, policy) && |a| == 16 && a !in db && Matches(policy, a, k)
    ensures IsSubnet(db, k) && Contains(k, a)
  {
    if !IsSubnet(db, k) {
      var d :| d in db && k == HostOnly(d);
      HostOnlyContains(d, a);
      assert false;
    }
  }

  /** Longest match picks the entry of s, whatever wider subnets have entries. */
  lemma BehindIsMostSpecific(db: Database, g: Graph<IP>, v: IP, policy: Policy, a: IP, s: Subnet, advertisers: set<IP>)
    requires ValidDatabase(db) && CorrectPolicy(db, g, v, policy) && BehindVia(db, a, s, advertisers) && s in policy
    ensures MostSpecific(policy, a, s)
  {
    forall k | Matches(policy, a, k) ensures Prefix(k) <= Prefix(s) {
      MatchIsSubnet(db, g, v, policy, a, k);
    }
  }

  lemma BehindEntry(db: Database, g: Graph<IP>, v: IP, policy: Policy, a: IP, s: Subnet, advertisers: set<IP>)
    requires ValidDatabase(db) && CIDRDatabase(db) && CorrectPolicy(db, g, v, policy)
    requires BehindVia(db, a, s, advertisers) && AllRemote(g, v, advertisers)
    ensures s in policy && CanWin(g, v, advertisers, policy[s])
    ensures forall r :: IsNextHop(policy, a, r) <==> r == Some(policy[s])
  {
    SubnetRouteExactly(db, g, v, policy, s);
    EntryCanWin(db, g, v, policy, s, advertisers);
    BehindIsMostSpecific(db, g, v, policy, a, s, advertisers);
    CorrectPolicyIsCIDR(db, g, v, policy);
    OnlyNextHop(policy, a, s);
  }

  lemma OnlyNextHop(policy: Policy, a: IP, s: Subnet)
    requires CIDRPolicy(policy) && MostSpecific(policy, a, s)
    ensures forall r :: IsNextHop(policy, a, r) <==> r == Some(policy[s])
  {
    assert IsNextHop(policy, a, Some(policy[s]));
    forall r | IsNextHop(policy, a, r) ensures r == Some(policy[s]) {
      NextHopUnique(policy, a, r, Some(policy[s]));
    }
  }

  lemma BehindHop(db: Database, g: Graph<IP>, v: IP, policy: Policy, a: IP, advertisers: set<IP>)
    requires ValidDatabase(db) && CIDRDatabase(db) && CorrectPolicy(db, g, v, policy)
    requires Behind(db, a, advertisers) && Steers(g, v, advertisers)
    ensures HopLeads(g, policy, v, a, advertisers)
  {
    var s :| BehindVia(db, a, s, advertisers);
    BehindEntry(db, g, v, policy, a, s, advertisers);
  }

  lemma BehindLeads(db: Database, g: Graph<IP>, policies: map<IP, Policy>, a: IP, advertisers: set<IP>)
    requires Converged(db, g, policies) && Behind(db, a, advertisers)
    requires AllSteer(db.Keys, g, advertisers)
    ensures LeadsTo(g, policies, a, advertisers)
  {
    forall v | v in policies && v !in advertisers && DistTo(g, v, advertisers) < MaxCost
      ensures HopLeads(g, policies[v], v, a, advertisers)
    {
      PolicyOf(db, g, policies, v);
      BehindHop(db, g, v, policies[v], a, advertisers);
    }
  }

  lemma RecalculatedLeads(db: Database, g: Graph<IP>, policies: map<IP, Policy>, a: IP, advertisers: set<IP>)
    requires AllRecalculated(db, policies) && Unambiguous(db) && IsInterconnect(db, g) && Behind(db, a, advertisers)
    requires AllSteer(db.Keys, g, advertisers)
    ensures LeadsTo(g, policies, a, advertisers) && policies.Keys == db.Keys && Positive(g) && EdgesInside(g, db.Keys)
  {
    GraphIsGood(db, g);
    UnambiguousConverges(db, g, policies);
    BehindLeads(db, g, policies, a, advertisers);
  }

  /** Anycast: if the condition holds at every node, packets for an address behind any number of
      advertisers arrive at a nearest one, along a shortest walk, visiting no node twice. */
  lemma AnycastDelivery(db: Database, g: Graph<IP>, policies: map<IP, Policy>, u: IP, a: IP, advertisers: set<IP>)
    returns (w: Walk<IP>)
    requires AllRecalculated(db, policies) && Unambiguous(db) && IsInterconnect(db, g) && Behind(db, a, advertisers)
    requires AllSteer(db.Keys, g, advertisers)
    requires u in db && DistTo(g, u, advertisers) < MaxCost
    ensures Delivers(db.Keys, g, policies, a, advertisers, u, w)
  {
    RecalculatedLeads(db, g, policies, a, advertisers);
    w := Delivery(db.Keys, g, policies, a, advertisers, u);
  }

  /** A sole advertiser meets the condition wherever it can be reached. */
  lemma SoleAdvertiserSteers<V(!new)>(g: Graph<V>, v: V, c: V)
    requires v != c && Dist(g, v, c) < MaxCost
    ensures Steers(g, v, {c})
  {
    forall p | CanWin(g, v, {c}, p) ensures NearHop(g, v, {c}, p) {
      FirstHopIsNear(g, v, c, p);
    }
  }

  lemma SoleAdvertiserAllSteer<V(!new)>(nodes: set<V>, g: Graph<V>, c: V)
    ensures AllSteer(nodes, g, {c})
  {
    forall v | v in nodes && v !in {c} && DistTo(g, v, {c}) < MaxCost ensures Steers(g, v, {c}) {
      DistToOne(g, v, c);
      SoleAdvertiserSteers(g, v, c);
    }
  }

  lemma SoleAdvertiserLeads(db: Database, g: Graph<IP>, policies: map<IP, Policy>, a: IP, c: IP)
    requires Converged(db, g, policies) && Behind(db, a, {c})
    ensures LeadsTo(g, policies, a, {c})
  {
    SoleAdvertiserAllSteer(db.Keys, g, c);
    BehindLeads(db, g, policies, a, {c});
  }

  /** So an address whose longest subnet one node alone advertises is routed like that node's own
      address, whoever advertises wider ones. */
  lemma SoleAdvertiserDelivery(db: Database, g: Graph<IP>, policies: map<IP, Policy>, u: IP, a: IP, c: IP)
    returns (w: Walk<IP>)
    requires AllRecalculated(db, policies) && Unambiguous(db) && IsInterconnect(db, g)
    requires u in db && Behind(db, a, {c}) && Dist(g, u, c) < MaxCost
    ensures w.v == u && End(w) == c && Trajectory(policies, a, {c}, w)
    ensures Simple(w) && Links(w) <= |db| - 1 && IsWalk(g, w) && Cost(g, w) == Dist(g, u, c)
  {
    UnambiguousConverges(db, g, policies);
    SoleAdvertiserLeads(db, g, policies, a, c);
    GraphIsGood(db, g);
    w := DeliveryToOne(db.Keys, g, policies, a, c, u);
  }
}
