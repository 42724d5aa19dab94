/** Route computation on values: the loops of recalculate in pkg/router/router.go, each
    proved against a relation stated with walks and distances. */
module Routes {
  import opened Address
  import opened Graph
  import opened Optional
  import opened Search

  type Conns = map<Subnet, int>
  type Database = map<IP, Conns>
  type Policy = map<Subnet, IP>

  /** What the router's caller owes it: sixteen-byte node addresses and positive costs. */
  ghost predicate ValidConns(conns: Conns) {
    forall s :: s in conns ==> conns[s] > 0
  }

  ghost predicate ValidDatabase(db: Database) {
    forall n :: n in db ==> |n| == 16 && ValidConns(db[n])
  }

  // ----- the graph of a database ---------------------------------------------------------

  /** row holds, for exactly the peers that some connection contains, the cost of one such
      connection.  When several contain a peer, map order picks; the relation allows each. */
  ghost predicate IsRow(conns: Conns, peers: set<IP>, row: map<IP, nat>) {
    && row.Keys <= peers
    && (forall p :: p in row ==> exists c :: Covers(conns, p, c) && conns[c] == row[p])
    && (forall p, c :: p in peers && Covers(conns, p, c) ==> p in row)
  }

  ghost predicate IsInterconnect(db: Database, g: Graph<IP>) {
    g.Keys == db.Keys && forall u :: u in db ==> IsRow(db[u], db.Keys, g[u])
  }

  predicate Covers(conns: Conns, p: IP, c: Subnet) {
    c in conns && Contains(c, p)
  }

  /** The innermost loop of the edge building: the last matching connection wins. */
  method EdgeCost(conns: Conns, peer: IP) returns (cost: Option<int>)
    ensures cost.None? <==> forall c :: !Covers(conns, peer, c)
    ensures cost.Some? ==> exists c :: Covers(conns, peer, c) && conns[c] == cost.value
  {
    cost := None;
    ghost var chosen: Subnet := [];
    var left := conns.Keys;
    while left != {}
      invariant left <= conns.Keys
      invariant cost.None? ==> forall c :: Covers(conns, peer, c) ==> c in left
      invariant cost.Some? ==> Covers(conns, peer, chosen) && conns[chosen] == cost.value
    {
      var conn :| conn in left;
      left := left - {conn};
      if Covers(conns, peer, conn) {
        cost, chosen := Some(conns[conn]), conn;
      }
    }
  }

  method BuildRow(conns: Conns, peers: set<IP>) returns (row: map<IP, nat>)
    requires ValidConns(conns)
    ensures IsRow(conns, peers, row)
  {
    row := map[];
    var todo := peers;
    while todo != {}
      invariant todo <= peers
      invariant IsRow(conns, peers - todo, row)
    {
      var peer :| peer in todo;
      var cost := EdgeCost(conns, peer);
      if cost.Some? {
        row := row[peer := cost.value];
      }
      todo := todo - {peer};
    }
    assert peers - todo == peers;
  }

  method BuildInterconnect(db: Database) returns (g: Graph<IP>)
    requires ValidDatabase(db)
    ensures IsInterconnect(db, g)
  {
    g := map[];
    var todo := db.Keys;
    while todo != {}
      invariant todo <= db.Keys
      invariant g.Keys == db.Keys - todo
      invariant forall u :: u in g ==> IsRow(db[u], db.Keys, g[u])
    {
      var node :| node in todo;
      var row := BuildRow(db[node], db.Keys);
      g := g[node := row];
      todo := todo - {node};
    }
  }

  lemma InterconnectPositive(db: Database, g: Graph<IP>)
    requires ValidDatabase(db) && IsInterconnect(db, g)
    ensures Positive(g)
    ensures forall u, v :: Edge(g, u, v) ==> v in db
  {
  }

  /** No two connections of different cost contain one peer. */
  ghost predicate UnambiguousRow(conns: Conns, peers: set<IP>) {
    forall p, c, d :: p in peers && Covers(conns, p, c) && Covers(conns, p, d) ==> conns[c] == conns[d]
  }

  ghost predicate Unambiguous(db: Database) {
    forall n :: n in db ==> UnambiguousRow(db[n], db.Keys)
  }

  lemma RowUnique(conns: Conns, peers: set<IP>, r: map<IP, nat>, t: map<IP, nat>)
    requires IsRow(conns, peers, r) && IsRow(conns, peers, t) && UnambiguousRow(conns, peers)
    ensures r == t
  {
    assert r.Keys == t.Keys;
  }

  /** An unambiguous database has one graph only. */
  lemma InterconnectUnique(db: Database, g: Graph<IP>, h: Graph<IP>)
    requires IsInterconnect(db, g) && IsInterconnect(db, h) && Unambiguous(db)
    ensures g == h
  {
    forall u | u in db ensures g[u] == h[u] {
      RowUnique(db[u], db.Keys, g[u], h[u]);
    }
  }

  /** A connection that contains a node's address is that node's own host subnet: sessions only,
      no external route over a node address. */
  ghost predicate PlainRow(conns: Conns, peers: set<IP>) {
    && (forall p, c :: p in peers && Covers(conns, p, c) ==> c == HostOnly(p))
    && (forall p :: p in peers && HostOnly(p) in conns ==> Covers(conns, p, HostOnly(p)))
  }

  lemma PlainRowEdges(conns: Conns, peers: set<IP>, row: map<IP, nat>)
    requires IsRow(conns, peers, row) && PlainRow(conns, peers)
    ensures forall p :: p in row <==> p in peers && HostOnly(p) in conns
    ensures forall p :: p in row ==> row[p] == conns[HostOnly(p)]
  {
  }

  // ----- advertised subnets --------------------------------------------------------------

  /** A /128 for the address of a known node: an edge of the graph, not a subnet. */
  predicate IsNodeHost(db: Database, s: Subnet) {
    Prefix(s) == 128 && SubnetIP(s) in db
  }

  predicate Advertises(db: Database, n: IP, s: Subnet) {
    n in db && s in db[n] && !IsNodeHost(db, s)
  }

  ghost predicate IsAdvertised(db: Database, nodes: set<IP>, subnets: map<Subnet, set<IP>>) {
    && (forall s :: s in subnets ==> subnets[s] != {})
    && (forall s, n :: s in subnets && n in subnets[s] ==> n in nodes && Advertises(db, n, s))
    && (forall s, n :: n in nodes && Advertises(db, n, s) ==> s in subnets && n in subnets[s])
  }

  method CollectSubnets(db: Database) returns (subnets: map<Subnet, set<IP>>)
    ensures IsAdvertised(db, db.Keys, subnets)
  {
    subnets := map[];
    var todo := db.Keys;
    while todo != {}
      invariant todo <= db.Keys
      invariant IsAdvertised(db, db.Keys - todo, subnets)
    {
      var node :| node in todo;
      subnets := CollectFrom(db, db.Keys - todo, node, subnets);
      todo := todo - {node};
      assert db.Keys - todo == db.Keys - (todo + {node}) + {node};
    }
    assert db.Keys - todo == db.Keys;
  }

  method CollectFrom(db: Database, ghost done: set<IP>, node: IP, before: map<Subnet, set<IP>>)
    returns (subnets: map<Subnet, set<IP>>)
    requires node in db && node !in done && IsAdvertised(db, done, before)
    ensures IsAdvertised(db, done + {node}, subnets)
  {
    subnets := before;
    var left := db[node].Keys;
    while left != {}
      invariant left <= db[node].Keys
      invariant forall s :: s in subnets ==> subnets[s] != {}
      invariant forall s, n :: s in subnets && n in subnets[s] ==> n in done + {node} && Advertises(db, n, s)
      invariant forall s, n :: n in done && Advertises(db, n, s) ==> s in subnets && n in subnets[s]
      invariant forall s :: Advertises(db, node, s) && s !in left ==> s in subnets && node in subnets[s]
    {
      var conn :| conn in left;
      left := left - {conn};
      if Prefix(conn) == 128 && SubnetIP(conn) in db {
        continue;
      }
      if conn !in subnets {
        subnets := subnets[conn := {}];
      }
      subnets := subnets[conn := subnets[conn] + {node}];
    }
  }

  // ----- node routes ---------------------------------------------------------------------

  /** The host entries a correct policy has for the listed destinations: exactly for the
      reachable remote ones, each the first hop of a shortest walk. */
  ghost predicate NodeRoutes(g: Graph<IP>, me: IP, dests: set<IP>, policy: Policy) {
    forall d :: d in dests ==>
      && (HostOnly(d) in policy <==> d != me && Dist(g, me, d) < MaxCost)
      && (HostOnly(d) in policy ==> FirstHop(g, me, d, policy[HostOnly(d)]))
  }

  ghost predicate OnlyHosts(dests: set<IP>, policy: Policy) {
    forall k :: k in policy ==> exists d :: d in dests && k == HostOnly(d)
  }

  /** What the search leaves behind. */
  ghost predicate Searched(g: Graph<IP>, me: IP, cost: map<IP, nat>, prev: map<IP, Option<IP>>) {
    && GoodGraph(g)
    && Labelled(g, me, Distances(g, me), cost, prev)
    && cost == Distances(g, me)
    && (forall u, v :: Precedes(prev, u, v) ==> Edge(g, u, v) && cost[u] + g[u][v] == cost[v])
  }

  /** A predecessor lies on a shortest walk to every destination its successor is on one for. */
  lemma PredecessorOnShortestWalk(g: Graph<IP>, me: IP, q: IP, p: IP, dest: IP)
    requires Edge(g, q, p) && Dist(g, me, q) + g[q][p] == Dist(g, me, p)
    requires Dist(g, me, p) + Dist(g, p, dest) == Dist(g, me, dest)
    ensures Dist(g, me, q) + Dist(g, q, dest) == Dist(g, me, dest)
  {
    EdgeBound(g, q, p);
    Triangle(g, q, p, dest);
    Triangle(g, me, q, dest);
  }

  /** The predecessor walk from a destination back to this node.  It ends because the cost
      falls at every step. */
  method WalkBack(g: Graph<IP>, me: IP, cost: map<IP, nat>, prev: map<IP, Option<IP>>, dest: IP)
    returns (hop: Option<IP>)
    requires Searched(g, me, cost, prev) && dest in g
    ensures hop.Some? <==> dest != me && Dist(g, me, dest) < MaxCost
    ensures hop.Some? ==> FirstHop(g, me, dest, hop.value)
  {
    var p := dest;
    DistToSelf(g, dest);
    while true
      invariant p in g
      invariant cost[p] + Dist(g, p, dest) == cost[dest]
      invariant p == dest || (p != me && dest != me && cost[p] < MaxCost && cost[dest] < MaxCost)
      decreases cost[p]
    {
      if prev[p] == Some(me) {
        assert Precedes(prev, me, p);
        return Some(p);
      } else if prev[p] == None {
        return None;
      }
      var q := prev[p].value;
      assert Precedes(prev, q, p);
      PredecessorOnShortestWalk(g, me, q, p, dest);
      p := q;
    }
  }

  lemma HostEntriesKept(g: Graph<IP>, me: IP, dests: set<IP>, policy: Policy, dest: IP, next: Policy)
    requires NodeRoutes(g, me, dests, policy) && OnlyHosts(dests, policy) && dest !in dests
    requires (next == policy && !(dest != me && Dist(g, me, dest) < MaxCost))
             || (dest != me && exists hop :: FirstHop(g, me, dest, hop) && next == policy[HostOnly(dest) := hop])
    ensures NodeRoutes(g, me, dests + {dest}, next) && OnlyHosts(dests + {dest}, next)
  {
    forall d | d in dests ensures HostOnly(d) != HostOnly(dest) {
      HostOnlyInjective(d, dest);
    }
  }

  method AddHostRoute(g: Graph<IP>, me: IP, cost: map<IP, nat>, prev: map<IP, Option<IP>>, ghost done: set<IP>,
                      dest: IP, before: Policy)
    returns (policy: Policy)
    requires Searched(g, me, cost, prev) && dest in g && dest !in done
    requires NodeRoutes(g, me, done, before) && OnlyHosts(done, before)
    ensures NodeRoutes(g, me, done + {dest}, policy) && OnlyHosts(done + {dest}, policy)
  {
    policy := before;
    var hop := WalkBack(g, me, cost, prev, dest);
    if hop.Some? {
      policy := policy[HostOnly(dest) := hop.value];
    }
    HostEntriesKept(g, me, done, before, dest, policy);
  }

  method NodePolicy(g: Graph<IP>, me: IP, cost: map<IP, nat>, prev: map<IP, Option<IP>>) returns (policy: Policy)
    requires Searched(g, me, cost, prev)
    ensures NodeRoutes(g, me, g.Keys, policy) && OnlyHosts(g.Keys, policy)
  {
    policy := map[];
    var todo := g.Keys;
    ghost var done := {};
    while todo != {}
      invariant todo <= g.Keys && done == g.Keys - todo
      invariant NodeRoutes(g, me, done, policy) && OnlyHosts(done, policy)
    {
      var dest :| dest in todo;
      policy := AddHostRoute(g, me, cost, prev, done, dest, policy);
      done := done + {dest};
      todo := todo - {dest};
    }
  }

  // ----- subnet routes -------------------------------------------------------------------

  /** newPolicy[host(candidate)], which reads as the empty address when there is no entry. */
  function ViaOf(policy: Policy, candidate: IP): IP {
    if HostOnly(candidate) in policy then policy[HostOnly(candidate)] else []
  }

  /** cost[via], which reads as zero when there is no label. */
  function ViaCost(cost: map<IP, nat>, via: IP): nat {
    if via in cost then cost[via] else 0
  }

  /** The choice between the advertisers of a subnet.  An advertiser without a host entry reads
      as cost zero and wins, which leaves the subnet without a route. */
  method BestCandidate(policy: Policy, cost: map<IP, nat>, candidates: set<IP>) returns (best: IP)
    requires candidates != {}
    requires [] !in cost
    requires forall c :: c in candidates && HostOnly(c) in policy ==>
               policy[HostOnly(c)] in cost && 0 < cost[policy[HostOnly(c)]] < MaxCost
    ensures best != [] <==> forall c :: c in candidates ==> HostOnly(c) in policy
    ensures best != [] ==> exists c :: c in candidates && ViaOf(policy, c) == best
    ensures best != [] ==> forall c :: c in candidates ==> ViaCost(cost, best) <= ViaCost(cost, ViaOf(policy, c))
  {
    best := [];
    var lowestCost := MaxCost;
    var left := candidates;
    while left != {}
      invariant left <= candidates
      invariant left == candidates ==> best == [] && lowestCost == MaxCost
      invariant left != candidates ==>
              lowestCost == ViaCost(cost, best) && exists c :: c in candidates - left && ViaOf(policy, c) == best
      invariant forall c :: c in candidates - left ==> lowestCost <= ViaCost(cost, ViaOf(policy, c))
    {
      var candidate :| candidate in left;
      var via := ViaOf(policy, candidate);
      if ViaCost(cost, via) < lowestCost {
        lowestCost := ViaCost(cost, via);
        best := via;
      }
      left := left - {candidate};
      assert candidate in candidates - left;
    }
    assert candidates - left == candidates;
  }

  /** The entry for an advertised subnet, given the host entries: present exactly when every
      advertiser has a host entry, and then the first hop to one of them that is cheapest
      among the advertisers' first hops. */
  ghost predicate SubnetChoice(db: Database, g: Graph<IP>, me: IP, hosts: Policy, s: Subnet, entry: Option<IP>) {
    && (entry.Some? <==> forall n :: Advertises(db, n, s) ==> HostOnly(n) in hosts)
    && (entry.Some? ==>
          && (exists n :: Advertises(db, n, s) && ViaOf(hosts, n) == entry.value)
          && (forall n :: Advertises(db, n, s) ==> Dist(g, me, entry.value) <= Dist(g, me, ViaOf(hosts, n))))
  }

  function EntryOf(policy: Policy, s: Subnet): Option<IP> {
    if s in policy then Some(policy[s]) else None
  }

  ghost predicate IsSubnet(db: Database, s: Subnet) {
    exists n :: Advertises(db, n, s)
  }

  /** A policy that is right for a database, seen from node me, with g the graph of its edges. */
  ghost predicate CorrectPolicy(db: Database, g: Graph<IP>, me: IP, policy: Policy) {
    && IsInterconnect(db, g)
    && NodeRoutes(g, me, db.Keys, policy)
    && (forall s :: IsSubnet(db, s) ==> SubnetChoice(db, g, me, policy, s, EntryOf(policy, s)))
    && (forall k :: k in policy ==> IsSubnet(db, k) || exists d :: d in db && k == HostOnly(d))
  }

  /** A correct policy has an entry for an advertised subnet exactly when every advertiser is a
      reachable remote node; one advertiser that is local or out of reach takes the route away
      for all.  The entry starts a shortest walk to one of the advertisers, and no advertiser's
      first hop is nearer than it. */
  lemma SubnetRouteExactly(db: Database, g: Graph<IP>, me: IP, policy: Policy, s: Subnet)
    requires CorrectPolicy(db, g, me, policy) && IsSubnet(db, s)
    ensures s in policy <==> forall n :: Advertises(db, n, s) ==> n != me && Dist(g, me, n) < MaxCost
    ensures s in policy ==> exists n :: Advertises(db, n, s) && FirstHop(g, me, n, policy[s])
    ensures s in policy ==>
              forall n :: Advertises(db, n, s) ==>
                HostOnly(n) in policy && Dist(g, me, policy[s]) <= Dist(g, me, policy[HostOnly(n)])
  {
    assert SubnetChoice(db, g, me, policy, s, EntryOf(policy, s));
    assert forall n :: Advertises(db, n, s) ==> (HostOnly(n) in policy <==> n != me && Dist(g, me, n) < MaxCost);
    if s in policy {
      var n :| Advertises(db, n, s) && ViaOf(policy, n) == policy[s];
      assert FirstHop(g, me, n, policy[s]);
    }
  }

  lemma FirstHopCost(g: Graph<IP>, me: IP, d: IP, p: IP)
    requires GoodGraph(g) && FirstHop(g, me, d, p)
    ensures p in g && 0 < Dist(g, me, p) < MaxCost
  {
    EdgeBound(g, me, p);
    DistPositive(g, me, p);
  }

  lemma HostIsNoSubnet(db: Database, d: IP)
    requires d in db && |d| == 16
    ensures !IsSubnet(db, HostOnly(d))
  {
    HostOnlyIsExact(d);
  }

  /** Outside the subnets both policies agree. */
  ghost predicate AgreeOutside(db: Database, p: Policy, q: Policy) {
    forall k :: !IsSubnet(db, k) ==> EntryOf(p, k) == EntryOf(q, k)
  }

  lemma HostEntriesAgree(db: Database, p: Policy, q: Policy, d: IP)
    requires ValidDatabase(db) && AgreeOutside(db, p, q) && d in db
    ensures EntryOf(p, HostOnly(d)) == EntryOf(q, HostOnly(d))
  {
    HostIsNoSubnet(db, d);
  }

  lemma ChoiceCarriesOver(db: Database, g: Graph<IP>, me: IP, p: Policy, q: Policy, s: Subnet, entry: Option<IP>)
    requires ValidDatabase(db) && AgreeOutside(db, p, q) && SubnetChoice(db, g, me, p, s, entry)
    ensures SubnetChoice(db, g, me, q, s, entry)
  {
    forall n | Advertises(db, n, s) ensures EntryOf(p, HostOnly(n)) == EntryOf(q, HostOnly(n)) {
      HostEntriesAgree(db, p, q, n);
    }
  }

  /** One subnet: the advertisers' host entries decide its entry. */
  method ChooseSubnet(db: Database, g: Graph<IP>, me: IP, cost: map<IP, nat>, policy: Policy, s: Subnet,
                      candidates: set<IP>) returns (best: IP)
    requires ValidDatabase(db) && GoodGraph(g) && g.Keys == db.Keys && cost == Distances(g, me)
    requires NodeRoutes(g, me, db.Keys, policy)
    requires candidates != {} && forall n :: n in candidates <==> Advertises(db, n, s)
    ensures SubnetChoice(db, g, me, policy, s, if best == [] then None else Some(best))
  {
    forall c | c in candidates && HostOnly(c) in policy
      ensures policy[HostOnly(c)] in cost && 0 < cost[policy[HostOnly(c)]] < MaxCost
    {
      FirstHopCost(g, me, c, policy[HostOnly(c)]);
    }
    best := BestCandidate(policy, cost, candidates);
  }

  /** The entries of the listed subnets are the right ones for the given host entries. */
  ghost predicate Chosen(db: Database, g: Graph<IP>, me: IP, hosts: Policy, done: set<Subnet>, policy: Policy) {
    && (forall s :: s in done ==> SubnetChoice(db, g, me, hosts, s, EntryOf(policy, s)))
    && (forall k :: k !in done ==> EntryOf(policy, k) == EntryOf(hosts, k))
  }

  lemma ChosenAgrees(db: Database, g: Graph<IP>, me: IP, hosts: Policy, done: set<Subnet>, policy: Policy)
    requires ValidDatabase(db) && Chosen(db, g, me, hosts, done, policy)
    requires NodeRoutes(g, me, db.Keys, hosts)
    requires forall s :: s in done ==> IsSubnet(db, s)
    ensures AgreeOutside(db, hosts, policy) && NodeRoutes(g, me, db.Keys, policy)
  {
    forall d | d in db ensures EntryOf(hosts, HostOnly(d)) == EntryOf(policy, HostOnly(d)) {
      HostEntriesAgree(db, hosts, policy, d);
    }
  }

  lemma ChosenIsCorrect(db: Database, g: Graph<IP>, me: IP, hosts: Policy, done: set<Subnet>, policy: Policy)
    requires ValidDatabase(db) && IsInterconnect(db, g)
    requires NodeRoutes(g, me, db.Keys, hosts) && OnlyHosts(db.Keys, hosts)
    requires Chosen(db, g, me, hosts, done, policy)
    requires forall s :: s in done <==> IsSubnet(db, s)
    ensures CorrectPolicy(db, g, me, policy)
  {
    ChosenAgrees(db, g, me, hosts, done, policy);
    forall s | IsSubnet(db, s) ensures SubnetChoice(db, g, me, policy, s, EntryOf(policy, s)) {
      ChoiceCarriesOver(db, g, me, hosts, policy, s, EntryOf(policy, s));
    }
    forall k | k in policy && !IsSubnet(db, k) ensures exists d :: d in db && k == HostOnly(d) {
      assert EntryOf(policy, k) == EntryOf(hosts, k);
    }
  }

  ghost predicate AreSubnets(db: Database, subnets: set<Subnet>) {
    forall s :: s in subnets ==> IsSubnet(db, s)
  }

  lemma CandidatesOf(db: Database, subnets: map<Subnet, set<IP>>, s: Subnet)
    requires IsAdvertised(db, db.Keys, subnets) && s in subnets
    ensures subnets[s] != {} && IsSubnet(db, s) && forall n :: n in subnets[s] <==> Advertises(db, n, s)
  {
    var n :| n in subnets[s];
    assert Advertises(db, n, s);
  }

  predicate IsSplit<T>(a: set<T>, b: set<T>, all: set<T>) {
    a + b == all && a !! b
  }

  lemma MoveOver<T>(a: set<T>, b: set<T>, all: set<T>, x: T)
    requires IsSplit(a, b, all) && x in b
    ensures IsSplit(a + {x}, b - {x}, all) && x in all && x !in a
  {
  }

  /** The subnet loop; entries are added to the policy while it is being read. */
  method SubnetPolicy(db: Database, g: Graph<IP>, me: IP, cost: map<IP, nat>, hosts: Policy,
                      subnets: map<Subnet, set<IP>>) returns (policy: Policy)
    requires ValidDatabase(db) && GoodGraph(g) && g.Keys == db.Keys && cost == Distances(g, me)
    requires NodeRoutes(g, me, db.Keys, hosts) && OnlyHosts(db.Keys, hosts)
    requires IsAdvertised(db, db.Keys, subnets)
    ensures Chosen(db, g, me, hosts, subnets.Keys, policy)
  {
    policy := hosts;
    var todo := subnets.Keys;
    ghost var done: set<Subnet> := {};
    while todo != {}
      invariant IsSplit(done, todo, subnets.Keys) && AreSubnets(db, done)
      invariant Chosen(db, g, me, hosts, done, policy)
    {
      var s :| s in todo;
      CandidatesOf(db, subnets, s);
      MoveOver(done, todo, subnets.Keys, s);
      policy := AddSubnetRoute(db, g, me, cost, hosts, done, s, subnets[s], policy);
      todo, done := todo - {s}, done + {s};
    }
  }

  lemma SubnetsAreAdvertised(db: Database, subnets: map<Subnet, set<IP>>)
    requires IsAdvertised(db, db.Keys, subnets)
    ensures forall s :: s in subnets <==> IsSubnet(db, s)
  {
    forall s | s in subnets ensures IsSubnet(db, s) {
      var n :| n in subnets[s];
      assert Advertises(db, n, s);
    }
  }

  lemma ExtendChosen(db: Database, g: Graph<IP>, me: IP, hosts: Policy, done: set<Subnet>, before: Policy, s: Subnet,
                     best: IP)
    requires Chosen(db, g, me, hosts, done, before) && s !in done && s !in hosts
    requires SubnetChoice(db, g, me, hosts, s, if best == [] then None else Some(best))
    ensures Chosen(db, g, me, hosts, done + {s}, if best == [] then before else before[s := best])
  {
    assert EntryOf(before, s) == EntryOf(hosts, s);
    var policy := if best == [] then before else before[s := best];
    assert forall k :: k != s ==> EntryOf(policy, k) == EntryOf(before, k);
  }

  lemma AddedIsChosen(db: Database, g: Graph<IP>, me: IP, hosts: Policy, done: set<Subnet>, before: Policy, s: Subnet,
                      best: IP)
    requires ValidDatabase(db) && OnlyHosts(db.Keys, hosts) && IsSubnet(db, s) && s !in done
    requires Chosen(db, g, me, hosts, done, before) && AgreeOutside(db, before, hosts)
    requires SubnetChoice(db, g, me, before, s, if best == [] then None else Some(best))
    ensures Chosen(db, g, me, hosts, done + {s}, if best == [] then before else before[s := best])
  {
    ChoiceCarriesOver(db, g, me, before, hosts, s, if best == [] then None else Some(best));
    SubnetHasNoHostEntry(db, hosts, s);
    ExtendChosen(db, g, me, hosts, done, before, s, best);
  }

  method AddSubnetRoute(db: Database, g: Graph<IP>, me: IP, cost: map<IP, nat>, ghost hosts: Policy,
                        ghost done: set<Subnet>, s: Subnet, candidates: set<IP>, before: Policy)
    returns (policy: Policy)
    requires ValidDatabase(db) && GoodGraph(g) && g.Keys == db.Keys && cost == Distances(g, me)
    requires NodeRoutes(g, me, db.Keys, hosts) && OnlyHosts(db.Keys, hosts)
    requires Chosen(db, g, me, hosts, done, before) && s !in done && AreSubnets(db, done)
    requires candidates != {} && IsSubnet(db, s) && forall n :: n in candidates <==> Advertises(db, n, s)
    ensures Chosen(db, g, me, hosts, done + {s}, policy)
  {
    ChosenAgrees(db, g, me, hosts, done, before);
    policy := before;
    var best := ChooseSubnet(db, g, me, cost, policy, s, candidates);
    AddedIsChosen(db, g, me, hosts, done, before, s, best);
    if best != [] {
      policy := policy[s := best];
    }
  }

  lemma SubnetHasNoHostEntry(db: Database, hosts: Policy, s: Subnet)
    requires ValidDatabase(db) && OnlyHosts(db.Keys, hosts) && IsSubnet(db, s)
    ensures s !in hosts
  {
    forall d | d in db ensures s != HostOnly(d) {
      HostIsNoSubnet(db, d);
    }
  }

  /** recalculate, up to storing the result. */
  method ComputePolicy(db: Database, me: IP) returns (policy: Policy)
    requires ValidDatabase(db)
    ensures exists g :: CorrectPolicy(db, g, me, policy)
  {
    var interconnect := BuildInterconnect(db);
    var subnets := CollectSubnets(db);
    InterconnectPositive(db, interconnect);
    var cost, prev := ShortestPaths(interconnect, me);
    var hosts := NodePolicy(interconnect, me, cost, prev);
    policy := SubnetPolicy(db, interconnect, me, cost, hosts, subnets);
    SubnetsAreAdvertised(db, subnets);
    ChosenIsCorrect(db, interconnect, me, hosts, subnets.Keys, policy);
  }
}
