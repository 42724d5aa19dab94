/** Addresses with several advertisers.  The subnet choice of recalculate compares the costs of the
    first hops only, and two neighbours can pick each other.  Here is exactly when a node is sure to
    send packets towards a nearest advertiser, exactly when packets are sure to arrive at one, and a
    network where they are not. */
module Anycast {
  import opened Address
  import opened Graph
  import opened Optional
  import opened Routes
  import opened Router
  import opened LoopFreedom
  import opened PolicyExistence

  // ----- nearest advertisers -------------------------------------------------------------

  /** Every correct policy of v sends s along a shortest walk to a nearest advertiser. */
  ghost predicate AlwaysNear(db: Database, g: Graph<IP>, v: IP, s: Subnet) {
    forall policy :: CorrectPolicy(db, g, v, policy) ==> s in policy && NearHop(g, v, AdvertisersOf(db, s), policy[s])
  }

  ghost function Rival(g: Graph<IP>, v: IP, advertisers: set<IP>, p: IP, m: IP): (q: IP)
    requires CanWin(g, v, advertisers, p) && m in advertisers
    ensures FirstHop(g, v, m, q) && Dist(g, v, p) <= Dist(g, v, q)
    ensures FirstHop(g, v, m, p) ==> q == p
  {
    if FirstHop(g, v, m, p) then p else var q :| FirstHop(g, v, m, q) && Dist(g, v, p) <= Dist(g, v, q); q
  }

  /** Whatever can win does win under some correct policy. */
  lemma WinnerHasPolicy(db: Database, g: Graph<IP>, v: IP, s: Subnet, p: IP) returns (policy: Policy)
    requires ValidDatabase(db) && IsInterconnect(db, g) && CanWin(g, v, AdvertisersOf(db, s), p)
    requires forall n :: Advertises(db, n, s) ==> n != v
    ensures CorrectPolicy(db, g, v, policy) && s in policy && policy[s] == p
  {
    var advertisers := AdvertisersOf(db, s);
    var n :| n in advertisers && FirstHop(g, v, n, p);
    var picks := map m | m in advertisers :: Rival(g, v, advertisers, p, m);
    policy := PolicyWithEntry(db, g, v, s, picks, n);
  }

  lemma AlwaysNearSteers(db: Database, g: Graph<IP>, v: IP, s: Subnet)
    requires ValidDatabase(db) && IsInterconnect(db, g) && AlwaysNear(db, g, v, s)
    requires forall n :: Advertises(db, n, s) ==> n != v && Dist(g, v, n) < MaxCost
    ensures Steers(g, v, AdvertisersOf(db, s))
  {
    var advertisers := AdvertisersOf(db, s);
    forall p | CanWin(g, v, advertisers, p) ensures NearHop(g, v, advertisers, p) {
      var policy := WinnerHasPolicy(db, g, v, s, p);
    }
  }

  lemma SteersAlwaysNear(db: Database, g: Graph<IP>, v: IP, s: Subnet)
    requires IsSubnet(db, s) && Steers(g, v, AdvertisersOf(db, s))
    ensures AlwaysNear(db, g, v, s)
  {
    var advertisers := AdvertisersOf(db, s);
    forall policy | CorrectPolicy(db, g, v, policy) ensures s in policy && NearHop(g, v, advertisers, policy[s]) {
      SubnetRouteExactly(db, g, v, policy, s);
      EntryCanWin(db, g, v, policy, s, advertisers);
    }
  }

  /** The exact condition: a node whose advertisers of s are all remote and reachable sends s
      towards a nearest one under every correct policy if and only if every first hop that can
      win leads to a nearest one. */
  lemma AnycastExactly(db: Database, g: Graph<IP>, v: IP, s: Subnet)
    requires ValidDatabase(db) && IsInterconnect(db, g) && IsSubnet(db, s)
    requires forall n :: Advertises(db, n, s) ==> n != v && Dist(g, v, n) < MaxCost
    ensures AlwaysNear(db, g, v, s) <==> Steers(g, v, AdvertisersOf(db, s))
  {
    if AlwaysNear(db, g, v, s) {
      AlwaysNearSteers(db, g, v, s);
    }
    if Steers(g, v, AdvertisersOf(db, s)) {
      SteersAlwaysNear(db, g, v, s);
    }
  }

  // ----- arrival -------------------------------------------------------------------------

  /** A packet for a from v arrives at an advertiser. */
  ghost predicate ArrivesFrom(policies: map<IP, Policy>, a: IP, advertisers: set<IP>, v: IP) {
    exists w: Walk<IP> :: w.v == v && End(w) in advertisers && Trajectory(policies, a, advertisers, w)
  }

  /** Under every converged set of policies packets for a arrive from every node. */
  ghost predicate AllArrive(db: Database, g: Graph<IP>, a: IP, advertisers: set<IP>) {
    forall policies, v :: Converged(db, g, policies) && v in db ==> ArrivesFrom(policies, a, advertisers, v)
  }

  /** Some first hop that can win at v is in the set. */
  ghost predicate CanStay<V(!new)>(g: Graph<V>, advertisers: set<V>, trap: set<V>, v: V) {
    exists p :: p in trap && CanWin(g, v, advertisers, p)
  }

  /** Nodes that are no advertisers and can all pick first hops among themselves. */
  ghost predicate Trap<V(!new)>(g: Graph<V>, advertisers: set<V>, trap: set<V>) {
    trap != {} && trap !! advertisers && AllStay(g, advertisers, trap)
  }

  ghost predicate HasTrap<V(!new)>(nodes: set<V>, g: Graph<V>, advertisers: set<V>) {
    exists trap :: trap <= nodes && Trap(g, advertisers, trap)
  }

  /** Every advertiser can be reached from every node. */
  ghost predicate AllReachable<V(!new)>(nodes: set<V>, g: Graph<V>, advertisers: set<V>) {
    forall v, n :: v in nodes && n in advertisers ==> Dist(g, v, n) < MaxCost
  }

  /** Where a packet goes on from a node that is no advertiser. */
  lemma NextOf(db: Database, g: Graph<IP>, policies: map<IP, Policy>, a: IP, s: Subnet, advertisers: set<IP>, v: IP)
    requires Converged(db, g, policies) && BehindVia(db, a, s, advertisers) && AllReachable(db.Keys, g, advertisers)
    requires v in db && v !in advertisers
    ensures s in policies[v] && CanWin(g, v, advertisers, policies[v][s]) && policies[v][s] in db
    ensures forall r :: IsNextHop(policies[v], a, r) <==> r == Some(policies[v][s])
  {
    PolicyOf(db, g, policies, v);
    assert AllRemote(g, v, advertisers);
    BehindEntry(db, g, v, policies[v], a, s, advertisers);
    GraphIsGood(db, g);
    WinnerInside(db.Keys, g, v, advertisers, policies[v][s]);
  }

  lemma WinnerInside(nodes: set<IP>, g: Graph<IP>, v: IP, advertisers: set<IP>, p: IP)
    requires EdgesInside(g, nodes) && v in nodes && CanWin(g, v, advertisers, p)
    ensures p in nodes
  {
    var n :| n in advertisers && FirstHop(g, v, n, p);
    assert Edge(g, v, p);
  }

  lemma ArrivesOnward(policies: map<IP, Policy>, a: IP, advertisers: set<IP>, v: IP, p: IP)
    requires v in policies && v !in advertisers && IsNextHop(policies[v], a, Some(p))
    requires ArrivesFrom(policies, a, advertisers, p)
    ensures ArrivesFrom(policies, a, advertisers, v)
  {
    var rest: Walk<IP> :| rest.v == p && End(rest) in advertisers && Trajectory(policies, a, advertisers, rest);
    var w := Via(v, rest);
    assert w.v == v && End(w) in advertisers && Trajectory(policies, a, advertisers, w);
  }

  lemma ArrivedAlready(policies: map<IP, Policy>, a: IP, advertisers: set<IP>, v: IP)
    requires v in advertisers
    ensures ArrivesFrom(policies, a, advertisers, v)
  {
    var w := At(v);
    assert w.v == v && End(w) in advertisers && Trajectory(policies, a, advertisers, w);
  }

  ghost function Lost(db: Database, policies: map<IP, Policy>, a: IP, advertisers: set<IP>): set<IP> {
    set v | v in db && !ArrivesFrom(policies, a, advertisers, v)
  }

  lemma LostStays(db: Database, g: Graph<IP>, policies: map<IP, Policy>, a: IP, s: Subnet, advertisers: set<IP>, v: IP)
    requires Converged(db, g, policies) && BehindVia(db, a, s, advertisers) && AllReachable(db.Keys, g, advertisers)
    requires v in Lost(db, policies, a, advertisers)
    ensures v !in advertisers && CanStay(g, advertisers, Lost(db, policies, a, advertisers), v)
  {
    if v in advertisers {
      ArrivedAlready(policies, a, advertisers, v);
    }
    NextOf(db, g, policies, a, s, advertisers, v);
    var p := policies[v][s];
    if ArrivesFrom(policies, a, advertisers, p) {
      ArrivesOnward(policies, a, advertisers, v, p);
    }
  }

  ghost predicate AllStay<V(!new)>(g: Graph<V>, advertisers: set<V>, trap: set<V>) {
    forall v {:trigger CanStay(g, advertisers, trap, v)} :: v in trap ==> CanStay(g, advertisers, trap, v)
  }

  lemma LostAllStay(db: Database, g: Graph<IP>, policies: map<IP, Policy>, a: IP, s: Subnet, advertisers: set<IP>)
    requires Converged(db, g, policies) && BehindVia(db, a, s, advertisers) && AllReachable(db.Keys, g, advertisers)
    ensures AllStay(g, advertisers, Lost(db, policies, a, advertisers))
  {
    var lost := Lost(db, policies, a, advertisers);
    forall v {:trigger CanStay(g, advertisers, lost, v)} | v in lost ensures CanStay(g, advertisers, lost, v) {
      LostStays(db, g, policies, a, s, advertisers, v);
    }
  }

  /** The nodes whose packets do not arrive form a trap. */
  lemma LostIsTrap(db: Database, g: Graph<IP>, policies: map<IP, Policy>, a: IP, s: Subnet, advertisers: set<IP>)
    requires Converged(db, g, policies) && BehindVia(db, a, s, advertisers) && AllReachable(db.Keys, g, advertisers)
    requires Lost(db, policies, a, advertisers) != {}
    ensures HasTrap(db.Keys, g, advertisers)
  {
    var lost := Lost(db, policies, a, advertisers);
    LostAllStay(db, g, policies, a, s, advertisers);
    forall v | v in lost ensures v !in advertisers {
      if v in advertisers {
        ArrivedAlready(policies, a, advertisers, v);
      }
    }
    assert Trap(g, advertisers, lost);
  }

  // ----- policies that stay in a trap ----------------------------------------------------

  ghost predicate Keeps(db: Database, g: Graph<IP>, s: Subnet, trap: set<IP>, v: IP, policy: Policy) {
    CorrectPolicy(db, g, v, policy) && (v in trap ==> s in policy && policy[s] in trap)
  }

  lemma KeepingExists(db: Database, g: Graph<IP>, s: Subnet, trap: set<IP>, v: IP)
    requires ValidDatabase(db) && IsInterconnect(db, g) && Trap(g, AdvertisersOf(db, s), trap)
    ensures exists policy :: Keeps(db, g, s, trap, v, policy)
  {
    var policy;
    if v in trap {
      assert CanStay(g, AdvertisersOf(db, s), trap, v);
      var p :| p in trap && CanWin(g, v, AdvertisersOf(db, s), p);
      policy := WinnerHasPolicy(db, g, v, s, p);
    } else {
      policy := CorrectPolicyFor(db, g, v, map[]);
    }
    assert Keeps(db, g, s, trap, v, policy);
  }

  ghost function Keeping(db: Database, g: Graph<IP>, s: Subnet, trap: set<IP>, v: IP): (policy: Policy)
    requires ValidDatabase(db) && IsInterconnect(db, g) && Trap(g, AdvertisersOf(db, s), trap)
    ensures Keeps(db, g, s, trap, v, policy)
  {
    KeepingExists(db, g, s, trap, v);
    var policy :| Keeps(db, g, s, trap, v, policy);
    policy
  }

  /** At the nodes of the trap the entry of s is in the trap. */
  ghost predicate StaysIn(policies: map<IP, Policy>, s: Subnet, trap: set<IP>) {
    forall v {:trigger policies[v]} :: v in trap ==> v in policies && s in policies[v] && policies[v][s] in trap
  }

  /** A converged set of policies under which no packet leaves the trap. */
  lemma KeepingPolicies(db: Database, g: Graph<IP>, s: Subnet, trap: set<IP>) returns (policies: map<IP, Policy>)
    requires ValidDatabase(db) && CIDRDatabase(db) && IsInterconnect(db, g) && Trap(g, AdvertisersOf(db, s), trap)
    ensures Converged(db, g, policies)
    ensures trap <= db.Keys ==> StaysIn(policies, s, trap)
  {
    policies := map v | v in db :: Keeping(db, g, s, trap, v);
  }

  lemma {:induction false} TrajectoryStays(db: Database, g: Graph<IP>, policies: map<IP, Policy>, a: IP, s: Subnet,
                                           advertisers: set<IP>, trap: set<IP>, w: Walk<IP>)
    requires Converged(db, g, policies) && BehindVia(db, a, s, advertisers) && AllReachable(db.Keys, g, advertisers)
    requires trap <= db.Keys && StaysIn(policies, s, trap)
    requires w.v in trap && Trajectory(policies, a, advertisers, w)
    ensures End(w) in trap
  {
    if w.Via? {
      NextOf(db, g, policies, a, s, advertisers, w.v);
      assert Some(w.rest.v) == Some(policies[w.v][s]);
      TrajectoryStays(db, g, policies, a, s, advertisers, trap, w.rest);
    }
  }

  lemma TrappedNeverArrives(db: Database, g: Graph<IP>, policies: map<IP, Policy>, a: IP, s: Subnet,
                            advertisers: set<IP>, trap: set<IP>, v: IP)
    requires Converged(db, g, policies) && BehindVia(db, a, s, advertisers) && AllReachable(db.Keys, g, advertisers)
    requires trap <= db.Keys && trap !! advertisers && StaysIn(policies, s, trap) && v in trap
    ensures !ArrivesFrom(policies, a, advertisers, v)
  {
    forall w: Walk<IP> | w.v == v && Trajectory(policies, a, advertisers, w) ensures End(w) !in advertisers {
      TrajectoryStays(db, g, policies, a, s, advertisers, trap, w);
    }
  }

  lemma TrapHolds(db: Database, g: Graph<IP>, a: IP, s: Subnet, advertisers: set<IP>, trap: set<IP>)
    requires ValidDatabase(db) && CIDRDatabase(db) && IsInterconnect(db, g) && BehindVia(db, a, s, advertisers)
    requires AllReachable(db.Keys, g, advertisers) && trap <= db.Keys && Trap(g, advertisers, trap)
    ensures !AllArrive(db, g, a, advertisers)
  {
    SameAdvertisers(db, a, s, advertisers);
    var policies := KeepingPolicies(db, g, s, trap);
    var v :| v in trap;
    TrappedNeverArrives(db, g, policies, a, s, advertisers, trap, v);
  }

  lemma SameAdvertisers(db: Database, a: IP, s: Subnet, advertisers: set<IP>)
    requires BehindVia(db, a, s, advertisers)
    ensures AdvertisersOf(db, s) == advertisers
  {
  }

  /** Exactly when packets can loop.  If every advertiser of a's longest subnet can be reached from
      every node, then packets for a arrive from every node under every converged set of policies
      if and only if the graph has no trap. */
  lemma ArrivalExactly(db: Database, g: Graph<IP>, a: IP, advertisers: set<IP>)
    requires ValidDatabase(db) && CIDRDatabase(db) && IsInterconnect(db, g) && Behind(db, a, advertisers)
    requires AllReachable(db.Keys, g, advertisers)
    ensures AllArrive(db, g, a, advertisers) <==> !HasTrap(db.Keys, g, advertisers)
  {
    var s :| BehindVia(db, a, s, advertisers);
    if HasTrap(db.Keys, g, advertisers) {
      var trap :| trap <= db.Keys && Trap(g, advertisers, trap);
      TrapHolds(db, g, a, s, advertisers, trap);
    } else {
      forall policies, v | Converged(db, g, policies) && v in db ensures ArrivesFrom(policies, a, advertisers, v) {
        if !ArrivesFrom(policies, a, advertisers, v) {
          assert v in Lost(db, policies, a, advertisers);
          LostIsTrap(db, g, policies, a, s, advertisers);
        }
      }
    }
  }

  /** Where all nodes steer towards a nearest advertiser there is no trap. */
  lemma SteeringHasNoTrap<V(!new)>(nodes: set<V>, g: Graph<V>, advertisers: set<V>)
    requires Positive(g) && AllSteer(nodes, g, advertisers)
    ensures !HasTrap(nodes, g, advertisers)
  {
    if HasTrap(nodes, g, advertisers) {
      var trap :| trap <= nodes && Trap(g, advertisers, trap);
      var v :| v in trap;
      TrapDescends(nodes, g, advertisers, trap, v);
    }
  }

  /** From a node of a trap one could go down for ever. */
  lemma {:induction false} TrapDescends<V(!new)>(nodes: set<V>, g: Graph<V>, advertisers: set<V>, trap: set<V>, v: V)
    requires Positive(g) && AllSteer(nodes, g, advertisers) && trap <= nodes && Trap(g, advertisers, trap) && v in trap
    ensures false
    decreases DistTo(g, v, advertisers)
  {
    assert CanStay(g, advertisers, trap, v);
    var p :| p in trap && CanWin(g, v, advertisers, p);
    var n :| n in advertisers && FirstHop(g, v, n, p);
    assert DistTo(g, v, advertisers) <= Dist(g, v, n);
    NearHopDescends(g, v, advertisers, p);
    TrapDescends(nodes, g, advertisers, trap, p);
  }

  // ----- two advertisers that make a loop ------------------------------------------------

  /** Two host connections. */
  function Two(x: IP, c: nat, y: IP, d: nat): Conns {
    map[HostOnly(x) := c, HostOnly(y) := d]
  }

  /** u and w are linked at cost 1; a hangs off w and b off u, each at cost 2; a and b both
      advertise the address t. */
  function TwoAdvertisers(u: IP, w: IP, a: IP, b: IP, t: IP): Database {
    map[u := Two(w, 1, b, 2), w := Two(u, 1, a, 2), a := Two(w, 2, t, 1), b := Two(u, 2, t, 1)]
  }

  predicate Distinct(u: IP, w: IP, a: IP, b: IP, t: IP) {
    && |u| == |w| == |a| == |b| == |t| == 16
    && u != w && u != a && u != b && u != t && w != a && w != b && w != t && a != b && a != t && b != t
  }

  lemma TwoHostsPlain(peers: set<IP>, x: IP, c: nat, y: IP, d: nat)
    requires |x| == |y| == 16 && (forall p :: p in peers ==> |p| == 16)
    ensures PlainRow(Two(x, c, y, d), peers)
  {
    forall p | p in peers
      ensures Contains(HostOnly(x), p) <==> p == x
      ensures Contains(HostOnly(y), p) <==> p == y
    {
      HostOnlyContains(x, p);
      HostOnlyContains(y, p);
    }
  }

  /** The row has exactly the edges to x and y. */
  ghost predicate RowOfTwo<V(!new)>(row: map<V, nat>, x: V, c: nat, y: V, d: nat) {
    (forall p :: p in row <==> p == x || p == y) && row[x] == c && row[y] == d
  }

  ghost predicate RowOfOne<V(!new)>(row: map<V, nat>, x: V, c: nat) {
    (forall p :: p in row <==> p == x) && row[x] == c
  }

  ghost predicate HasTwoHosts(conns: Conns, x: IP, c: nat, y: IP, d: nat) {
    && (forall p :: HostOnly(p) in conns <==> p == x || p == y)
    && conns[HostOnly(x)] == c && conns[HostOnly(y)] == d
  }

  lemma TwoHostKeys(x: IP, c: nat, y: IP, d: nat)
    requires x != y
    ensures HasTwoHosts(Two(x, c, y, d), x, c, y, d)
  {
    HostOnlyInjective(x, y);
    var conns: Conns := Two(x, c, y, d);
    forall p ensures HostOnly(p) in conns <==> p == x || p == y {
      HostOnlyInjective(p, x);
      HostOnlyInjective(p, y);
    }
  }

  lemma HostKeysRow(conns: Conns, peers: set<IP>, x: IP, c: nat, y: IP, d: nat, row: map<IP, nat>)
    requires HasTwoHosts(conns, x, c, y, d) && PlainRow(conns, peers) && IsRow(conns, peers, row) && x in peers
    ensures if y in peers then RowOfTwo(row, x, c, y, d) else RowOfOne(row, x, c)
  {
    PlainRowEdges(conns, peers, row);
    RowFromEdges(conns, peers, x, c, y, d, row);
  }

  lemma RowFromEdges(conns: Conns, peers: set<IP>, x: IP, c: nat, y: IP, d: nat, row: map<IP, nat>)
    requires HasTwoHosts(conns, x, c, y, d) && x in peers
    requires forall p :: p in row <==> p in peers && HostOnly(p) in conns
    requires forall p :: p in row ==> row[p] == conns[HostOnly(p)]
    ensures if y in peers then RowOfTwo(row, x, c, y, d) else RowOfOne(row, x, c)
  {
  }

  lemma TwoHostsRow(peers: set<IP>, x: IP, c: nat, y: IP, d: nat, row: map<IP, nat>)
    requires |x| == |y| == 16 && x != y && x in peers && (forall p :: p in peers ==> |p| == 16)
    requires IsRow(Two(x, c, y, d), peers, row)
    ensures if y in peers then RowOfTwo(row, x, c, y, d) else RowOfOne(row, x, c)
  {
    TwoHostsPlain(peers, x, c, y, d);
    TwoHostKeys(x, c, y, d);
    HostKeysRow(Two(x, c, y, d), peers, x, c, y, d, row);
  }

  ghost predicate IsRing<V(!new)>(g: Graph<V>, u: V, w: V, a: V, b: V) {
    && u != w && u != a && u != b && w != a && w != b && a != b
    && g.Keys == {u, w, a, b}
    && RowOfTwo(g[u], w, 1, b, 2)
    && RowOfTwo(g[w], u, 1, a, 2)
    && RowOfOne(g[a], w, 2)
    && RowOfOne(g[b], u, 2)
  }

  ghost predicate IsTwoAdvertisers(db: Database, u: IP, w: IP, a: IP, b: IP, t: IP) {
    && Distinct(u, w, a, b, t)
    && db.Keys == {u, w, a, b}
    && db[u] == Two(w, 1, b, 2)
    && db[w] == Two(u, 1, a, 2)
    && db[a] == Two(w, 2, t, 1)
    && db[b] == Two(u, 2, t, 1)
  }

  lemma GraphRow(db: Database, g: Graph<IP>, n: IP, x: IP, c: nat, y: IP, d: nat)
    requires IsInterconnect(db, g) && n in db && db[n] == Two(x, c, y, d)
    requires |x| == |y| == 16 && x != y && x in db && (forall p :: p in db ==> |p| == 16)
    ensures if y in db then RowOfTwo(g[n], x, c, y, d) else RowOfOne(g[n], x, c)
  {
    TwoHostsRow(db.Keys, x, c, y, d, g[n]);
  }

  lemma RingRows(db: Database, u: IP, w: IP, a: IP, b: IP, t: IP, g: Graph<IP>)
    requires IsTwoAdvertisers(db, u, w, a, b, t) && IsInterconnect(db, g)
    ensures RowOfTwo(g[u], w, 1, b, 2)
    ensures RowOfOne(g[a], w, 2)
  {
    assert b in db && t !in db;
    GraphRow(db, g, u, w, 1, b, 2);
    GraphRow(db, g, a, w, 2, t, 1);
  }

  lemma SwapSides(db: Database, u: IP, w: IP, a: IP, b: IP, t: IP)
    requires IsTwoAdvertisers(db, u, w, a, b, t)
    ensures IsTwoAdvertisers(db, w, u, b, a, t)
  {
  }

  lemma RingIsTheGraph(db: Database, u: IP, w: IP, a: IP, b: IP, t: IP, g: Graph<IP>)
    requires IsTwoAdvertisers(db, u, w, a, b, t) && IsInterconnect(db, g)
    ensures IsRing(g, u, w, a, b)
  {
    RingRows(db, u, w, a, b, t, g);
    SwapSides(db, u, w, a, b, t);
    RingRows(db, w, u, b, a, t, g);
  }

  /** Distances in the ring, from u. */
  lemma RingDistances<V(!new)>(g: Graph<V>, u: V, w: V, a: V, b: V)
    requires IsRing(g, u, w, a, b)
    ensures Dist(g, u, w) == 1 && Dist(g, u, b) == 2 && Dist(g, u, a) == 3
    ensures Dist(g, w, b) == 3 && Dist(g, b, a) == 5
  {
    Walks(g, u, w, a, b);
    Labels(g, u, w, a, b);
  }

  lemma Walks<V(!new)>(g: Graph<V>, u: V, w: V, a: V, b: V)
    requires IsRing(g, u, w, a, b)
    ensures Dist(g, u, w) <= 1 && Dist(g, u, b) <= 2 && Dist(g, u, a) <= 3
    ensures Dist(g, w, b) <= 3 && Dist(g, b, a) <= 5
  {
    EdgeBound(g, u, w);
    EdgeBound(g, u, b);
    EdgeBound(g, w, a);
    EdgeBound(g, w, u);
    EdgeBound(g, b, u);
    Triangle(g, u, w, a);
    Triangle(g, w, u, b);
    Triangle(g, b, u, a);
  }

  lemma Labels<V(!new)>(g: Graph<V>, u: V, w: V, a: V, b: V)
    requires IsRing(g, u, w, a, b)
    ensures Dist(g, u, w) >= 1 && Dist(g, u, b) >= 2 && Dist(g, u, a) >= 3
    ensures Dist(g, w, b) >= 3 && Dist(g, b, a) >= 5
  {
    Below(g, u, w, a, b, map[u := 0, w := 1, b := 2, a := 3], u, w);
    Below(g, u, w, a, b, map[u := 0, w := 1, b := 2, a := 3], u, b);
    Below(g, u, w, a, b, map[u := 0, w := 1, b := 2, a := 3], u, a);
    Below(g, u, w, a, b, map[u := 1, w := 0, b := 3, a := 2], w, b);
    Below(g, u, w, a, b, map[u := 2, w := 3, b := 0, a := 5], b, a);
  }

  lemma Below<V(!new)>(g: Graph<V>, u: V, w: V, a: V, b: V, labels: map<V, nat>, x: V, y: V)
    requires IsRing(g, u, w, a, b) && labels.Keys == g.Keys && x in g && y in g
    requires labels[w] <= labels[u] + 1 && labels[b] <= labels[u] + 2 && labels[u] <= labels[w] + 1
    requires labels[a] <= labels[w] + 2
    requires labels[w] <= labels[a] + 2 && labels[u] <= labels[b] + 2 && labels[x] == 0 && labels[y] <= MaxCost
    ensures labels[y] <= Dist(g, x, y)
  {
    assert Relaxed(g, labels);
    RelaxedBelowDist(g, labels, x, y);
  }

  /** The first hops that u can have towards the two advertisers. */
  lemma RingFirstHops<V(!new)>(g: Graph<V>, u: V, w: V, a: V, b: V)
    requires IsRing(g, u, w, a, b)
    ensures forall p :: FirstHop(g, u, a, p) ==> p == w
    ensures forall p :: FirstHop(g, u, b, p) ==> p == b
    ensures Dist(g, u, w) < Dist(g, u, b) < Dist(g, u, a) < MaxCost
  {
    RingDistances(g, u, w, a, b);
  }

  /** The ring violates the condition: towards its two advertisers u can only pick w, which leads
      to the farther one. */
  lemma RingDoesNotSteer<V(!new)>(g: Graph<V>, u: V, w: V, a: V, b: V)
    requires IsRing(g, u, w, a, b)
    ensures CanWin(g, u, {a, b}, w) && !NearHop(g, u, {a, b}, w) && !Steers(g, u, {a, b})
  {
    RingFirstHops(g, u, w, a, b);
    RingDistances(g, u, w, a, b);
    RingDistances(g, w, u, b, a);
    DistToSelf(g, b);
    assert FirstHop(g, u, a, w) && FirstHop(g, u, b, b);
    assert a in {a, b} && b in {a, b};
  }

  lemma RingStays<V(!new)>(g: Graph<V>, u: V, w: V, a: V, b: V)
    requires IsRing(g, u, w, a, b)
    ensures CanStay(g, {a, b}, {u, w}, u)
  {
    RingDoesNotSteer(g, u, w, a, b);
    StaysVia(g, {a, b}, {u, w}, u, w);
  }

  lemma RingStaysToo<V(!new)>(g: Graph<V>, u: V, w: V, a: V, b: V)
    requires IsRing(g, u, w, a, b)
    ensures CanStay(g, {a, b}, {u, w}, w)
  {
    RingStays(g, w, u, b, a);
    assert {b, a} == {a, b} && {w, u} == {u, w};
  }

  /** So u and w are a trap. */
  lemma RingHasTrap<V(!new)>(g: Graph<V>, u: V, w: V, a: V, b: V)
    requires IsRing(g, u, w, a, b)
    ensures Trap(g, {a, b}, {u, w})
  {
    RingStays(g, u, w, a, b);
    RingStaysToo(g, u, w, a, b);
    PairIsTrap(g, {a, b}, u, w);
  }

  lemma PairIsTrap<V(!new)>(g: Graph<V>, advertisers: set<V>, u: V, w: V)
    requires u !in advertisers && w !in advertisers
    requires CanStay(g, advertisers, {u, w}, u) && CanStay(g, advertisers, {u, w}, w)
    ensures Trap(g, advertisers, {u, w})
  {
    forall v {:trigger CanStay(g, advertisers, {u, w}, v)} | v in {u, w} ensures CanStay(g, advertisers, {u, w}, v) {
      assert v == u || v == w;
    }
  }

  lemma StaysVia<V(!new)>(g: Graph<V>, advertisers: set<V>, trap: set<V>, v: V, p: V)
    requires p in trap && CanWin(g, v, advertisers, p)
    ensures CanStay(g, advertisers, trap, v)
  {
  }

  lemma TwoIsGood(x: IP, c: nat, y: IP, d: nat)
    requires |x| == |y| == 16 && c > 0 && d > 0
    ensures ValidConns(Two(x, c, y, d)) && CIDRConns(Two(x, c, y, d))
  {
    HostOnlyIsExact(x);
    HostOnlyIsExact(y);
  }

  lemma DatabaseIsGood(db: Database, u: IP, w: IP, a: IP, b: IP, t: IP)
    requires IsTwoAdvertisers(db, u, w, a, b, t)
    ensures ValidDatabase(db) && CIDRDatabase(db)
  {
    TwoIsGood(w, 1, b, 2);
    TwoIsGood(u, 1, a, 2);
    TwoIsGood(w, 2, t, 1);
    TwoIsGood(u, 2, t, 1);
  }

  lemma AdvertisedByTwo(db: Database, u: IP, w: IP, a: IP, b: IP, t: IP, n: IP)
    requires IsTwoAdvertisers(db, u, w, a, b, t)
    ensures Advertises(db, n, HostOnly(t)) <==> n == a || n == b
  {
    HostIsOfNoNode(db, t);
    TwoHasHost(w, 1, b, 2, t);
    TwoHasHost(u, 1, a, 2, t);
    TwoHasHost(w, 2, t, 1, t);
    TwoHasHost(u, 2, t, 1, t);
  }

  lemma TwoHasHost(x: IP, c: nat, y: IP, d: nat, p: IP)
    ensures HostOnly(p) in Two(x, c, y, d) <==> p == x || p == y
  {
    HostOnlyInjective(p, x);
    HostOnlyInjective(p, y);
  }

  lemma CheaperOfTwo(db: Database, g: Graph<IP>, u: IP, policy: Policy, s: Subnet, a: IP, b: IP)
    requires forall n :: Advertises(db, n, s) <==> n == a || n == b
    requires SubnetChoice(db, g, u, policy, s, EntryOf(policy, s))
    requires HostOnly(a) in policy && HostOnly(b) in policy
    requires Dist(g, u, policy[HostOnly(a)]) < Dist(g, u, policy[HostOnly(b)])
    ensures EntryOf(policy, s) == Some(policy[HostOnly(a)])
  {
    assert Advertises(db, a, s);
  }

  lemma ViasAt(db: Database, u: IP, w: IP, a: IP, b: IP, g: Graph<IP>, policy: Policy)
    requires IsRing(g, u, w, a, b) && CorrectPolicy(db, g, u, policy)
    ensures HostOnly(a) in policy && policy[HostOnly(a)] == w
    ensures HostOnly(b) in policy && policy[HostOnly(b)] == b
    ensures Dist(g, u, w) < Dist(g, u, b)
  {
    RingFirstHops(g, u, w, a, b);
    HostEntryOf(db, g, u, policy, a);
    HostEntryOf(db, g, u, policy, b);
  }

  lemma ChoiceAt(db: Database, g: Graph<IP>, u: IP, policy: Policy, s: Subnet, n: IP)
    requires CorrectPolicy(db, g, u, policy) && Advertises(db, n, s)
    ensures SubnetChoice(db, g, u, policy, s, EntryOf(policy, s))
  {
    assert IsSubnet(db, s);
  }

  lemma AdvertisersOfT(db: Database, u: IP, w: IP, a: IP, b: IP, t: IP)
    requires IsTwoAdvertisers(db, u, w, a, b, t)
    ensures forall n :: Advertises(db, n, HostOnly(t)) <==> n == a || n == b
  {
    forall n ensures Advertises(db, n, HostOnly(t)) <==> n == a || n == b {
      AdvertisedByTwo(db, u, w, a, b, t, n);
    }
  }

  /** Seen from u, the cheapest first hop towards an advertiser is its neighbour w. */
  lemma EntryAt(db: Database, u: IP, w: IP, a: IP, b: IP, t: IP, g: Graph<IP>, policy: Policy)
    requires IsTwoAdvertisers(db, u, w, a, b, t) && CorrectPolicy(db, g, u, policy)
    ensures EntryOf(policy, HostOnly(t)) == Some(w)
  {
    AdvertisersOfT(db, u, w, a, b, t);
    RingIsTheGraph(db, u, w, a, b, t, g);
    ViasAt(db, u, w, a, b, g, policy);
    ChoiceAt(db, g, u, policy, HostOnly(t), a);
    CheaperOfTwo(db, g, u, policy, HostOnly(t), a, b);
  }

  lemma HopAt(db: Database, u: IP, w: IP, a: IP, b: IP, t: IP, g: Graph<IP>, policy: Policy, r: Option<IP>)
    requires IsTwoAdvertisers(db, u, w, a, b, t) && CorrectPolicy(db, g, u, policy) && IsNextHop(policy, t, r)
    ensures r == Some(w)
  {
    EntryAt(db, u, w, a, b, t, g, policy);
    DatabaseIsGood(db, u, w, a, b, t);
    CorrectPolicyIsCIDR(db, g, u, policy);
    HostOnlyIsExact(t);
    forall k | Matches(policy, t, k) ensures Prefix(k) <= 128 {
      PrefixBound(k);
    }
    assert MostSpecific(policy, t, HostOnly(t));
    NextHopUnique(policy, t, r, Some(w));
  }

  lemma RingReaches(db: Database, u: IP, w: IP, a: IP, b: IP, t: IP, g: Graph<IP>)
    requires IsTwoAdvertisers(db, u, w, a, b, t) && IsInterconnect(db, g)
    ensures Dist(g, u, a) == 3 && Dist(g, u, b) == 2
  {
    RingIsTheGraph(db, u, w, a, b, t, g);
    RingDistances(g, u, w, a, b);
  }

  /** In the two-advertiser network every correct set of policies makes u and w forward packets
      for t to each other for ever, although both can reach both advertisers. */
  lemma TwoAdvertisersLoop(u: IP, w: IP, a: IP, b: IP, t: IP, policies: map<IP, Policy>)
    requires Distinct(u, w, a, b, t) && AllRecalculated(TwoAdvertisers(u, w, a, b, t), policies)
    ensures forall r :: IsNextHop(policies[u], t, r) ==> r == Some(w)
    ensures forall r :: IsNextHop(policies[w], t, r) ==> r == Some(u)
    ensures forall g :: IsInterconnect(TwoAdvertisers(u, w, a, b, t), g) ==> Dist(g, u, a) == 3 && Dist(g, w, a) == 2
  {
    var db := TwoAdvertisers(u, w, a, b, t);
    TwoAdvertisersSymmetric(u, w, a, b, t);
    LoopAt(db, u, w, a, b, t, policies);
    LoopAt(db, w, u, b, a, t, policies);
  }

  lemma TwoAdvertisersSymmetric(u: IP, w: IP, a: IP, b: IP, t: IP)
    requires Distinct(u, w, a, b, t)
    ensures IsTwoAdvertisers(TwoAdvertisers(u, w, a, b, t), u, w, a, b, t)
    ensures IsTwoAdvertisers(TwoAdvertisers(u, w, a, b, t), w, u, b, a, t)
  {
  }

  lemma LoopAt(db: Database, u: IP, w: IP, a: IP, b: IP, t: IP, policies: map<IP, Policy>)
    requires IsTwoAdvertisers(db, u, w, a, b, t) && AllRecalculated(db, policies)
    ensures forall r :: IsNextHop(policies[u], t, r) ==> r == Some(w)
    ensures forall g :: IsInterconnect(db, g) ==> Dist(g, u, a) == 3 && Dist(g, u, b) == 2
  {
    var g :| CorrectPolicy(db, g, u, policies[u]);
    forall r | IsNextHop(policies[u], t, r) ensures r == Some(w) {
      HopAt(db, u, w, a, b, t, g, policies[u], r);
    }
    forall g | IsInterconnect(db, g) ensures Dist(g, u, a) == 3 && Dist(g, u, b) == 2 {
      RingReaches(db, u, w, a, b, t, g);
    }
  }

  // ----- an advertiser out of reach ------------------------------------------------------

  /** me and c are linked; x still lists me, but me has no session with x any more; c and x both
      advertise the address t, and me an address z of its own. */
  ghost predicate IsLostAdvertiser(db: Database, me: IP, c: IP, x: IP, t: IP, z: IP) {
    && Distinct(me, c, x, t, z)
    && db.Keys == {me, c, x}
    && db[me] == Two(c, 1, z, 1)
    && db[c] == Two(me, 1, t, 1)
    && db[x] == Two(me, 1, t, 1)
  }

  lemma LostIsValid(db: Database, me: IP, c: IP, x: IP, t: IP, z: IP)
    requires IsLostAdvertiser(db, me, c, x, t, z)
    ensures ValidDatabase(db)
  {
    TwoIsGood(c, 1, z, 1);
    TwoIsGood(me, 1, t, 1);
  }

  lemma LostRow(db: Database, me: IP, c: IP, x: IP, t: IP, z: IP, g: Graph<IP>)
    requires IsLostAdvertiser(db, me, c, x, t, z) && IsInterconnect(db, g)
    ensures RowOfOne(g[me], c, 1)
  {
    assert c in db && z !in db;
    GraphRow(db, g, me, c, 1, z, 1);
  }

  lemma BackRow(db: Database, me: IP, c: IP, x: IP, t: IP, z: IP, g: Graph<IP>, n: IP)
    requires IsLostAdvertiser(db, me, c, x, t, z) && IsInterconnect(db, g) && (n == c || n == x)
    ensures RowOfOne(g[n], me, 1)
  {
    assert me in db && t !in db;
    GraphRow(db, g, n, me, 1, t, 1);
  }

  lemma LostGraph(db: Database, me: IP, c: IP, x: IP, t: IP, z: IP, g: Graph<IP>)
    requires IsLostAdvertiser(db, me, c, x, t, z) && IsInterconnect(db, g)
    ensures Dist(g, me, c) == 1 && Dist(g, me, x) == MaxCost
  {
    LostRow(db, me, c, x, t, z, g);
    BackRow(db, me, c, x, t, z, g, c);
    BackRow(db, me, c, x, t, z, g, x);
    NoWayTo(g, me, c, x);
  }

  lemma NoWayTo<V(!new)>(g: Graph<V>, me: V, c: V, x: V)
    requires me != c && me != x && c != x && g.Keys == {me, c, x}
    requires RowOfOne(g[me], c, 1) && RowOfOne(g[c], me, 1) && RowOfOne(g[x], me, 1)
    ensures Dist(g, me, c) == 1 && Dist(g, me, x) == MaxCost
  {
    var labels := map[me := 0, c := 1, x := MaxCost];
    assert Relaxed(g, labels);
    RelaxedBelowDist(g, labels, me, x);
    RelaxedBelowDist(g, labels, me, c);
    EdgeBound(g, me, c);
  }

  lemma LostAdvertisers(db: Database, me: IP, c: IP, x: IP, t: IP, z: IP, n: IP)
    requires IsLostAdvertiser(db, me, c, x, t, z) && (n == c || n == x)
    ensures Advertises(db, n, HostOnly(t))
  {
    TwoHasHost(me, 1, t, 1, t);
    HostIsOfNoNode(db, t);
  }

  lemma HostIsOfNoNode(db: Database, t: IP)
    requires |t| == 16 && t !in db
    ensures !IsNodeHost(db, HostOnly(t))
  {
    HostOnlyIsExact(t);
  }

  lemma TwoContains(x: IP, c: nat, y: IP, d: nat, k: Subnet, t: IP)
    requires |x| == |y| == |t| == 16 && k in Two(x, c, y, d) && Contains(k, t)
    ensures k == HostOnly(t)
  {
    HostOnlyContains(x, t);
    HostOnlyContains(y, t);
  }

  lemma LostMatch(db: Database, me: IP, c: IP, x: IP, t: IP, z: IP, k: Subnet)
    requires IsLostAdvertiser(db, me, c, x, t, z) && IsSubnet(db, k) && Contains(k, t)
    ensures k == HostOnly(t)
  {
    var n :| Advertises(db, n, k);
    if n == me {
      TwoContains(c, 1, z, 1, k, t);
    } else {
      TwoContains(me, 1, t, 1, k, t);
    }
  }

  lemma LostSubnets(db: Database, me: IP, c: IP, x: IP, t: IP, z: IP)
    requires IsLostAdvertiser(db, me, c, x, t, z)
    ensures |t| == 16 && t !in db && forall k :: IsSubnet(db, k) && Contains(k, t) ==> k == HostOnly(t)
  {
    forall k | IsSubnet(db, k) && Contains(k, t) ensures k == HostOnly(t) {
      LostMatch(db, me, c, x, t, z, k);
    }
  }

  lemma NoEntryNoHop(db: Database, g: Graph<IP>, me: IP, policy: Policy, s: Subnet, t: IP, x: IP)
    requires ValidDatabase(db) && CorrectPolicy(db, g, me, policy) && |t| == 16 && t !in db
    requires forall k :: IsSubnet(db, k) && Contains(k, t) ==> k == s
    requires Advertises(db, x, s) && Dist(g, me, x) == MaxCost
    ensures IsNextHop(policy, t, None)
  {
    SubnetRouteExactly(db, g, me, policy, s);
    forall k ensures !Matches(policy, t, k) {
      if Matches(policy, t, k) {
        MatchIsSubnet(db, g, me, policy, t, k);
        assert false;
      }
    }
  }

  lemma InterconnectOf(db: Database, g: Graph<IP>, me: IP, policy: Policy)
    requires CorrectPolicy(db, g, me, policy)
    ensures IsInterconnect(db, g)
  {
  }

  /** An advertiser that cannot be reached takes the route away from one that can: at me every
      correct policy has no next hop for t, although c is one link away. */
  lemma LostAdvertiserTakesRoute(db: Database, me: IP, c: IP, x: IP, t: IP, z: IP, g: Graph<IP>, policy: Policy)
    requires IsLostAdvertiser(db, me, c, x, t, z) && CorrectPolicy(db, g, me, policy)
    ensures Advertises(db, c, HostOnly(t)) && Dist(g, me, c) == 1
    ensures IsNextHop(policy, t, None)
  {
    LostIsValid(db, me, c, x, t, z);
    InterconnectOf(db, g, me, policy);
    LostGraph(db, me, c, x, t, z, g);
    LostAdvertisers(db, me, c, x, t, z, c);
    LostAdvertisers(db, me, c, x, t, z, x);
    LostSubnets(db, me, c, x, t, z);
    NoEntryNoHop(db, g, me, policy, HostOnly(t), t, x);
  }
}
