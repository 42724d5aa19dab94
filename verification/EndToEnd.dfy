/** The whole stack: once nothing is on its way to the nodes within reach of each other, their
    routers have recalculated and their announcements are current, a packet sent at one of them
    reaches any other along a cheapest chain of sessions, exactly if no external route captures the
    address of one of them and no stale announcement offers a cheaper way. */
module EndToEnd {
  import opened Address
  import opened Graph
  import opened Optional
  import opened Routes
  import opened Node
  import opened Flood
  import opened Agreement
  import opened LoopFreedom
  import Fwd = Forwarding
  import PolicyExistence
  import Router

  // ----- settled networks ----------------------------------------------------------------

  /** What a node has announced last is what it would announce now. */
  ghost predicate IsCurrent(s: Node) {
    s.addr in s.router.nodes ==> Announces(s, s.router.nodes[s.addr])
  }

  /** The node has recalculated, and has announced its current connections since then. */
  ghost predicate IsReady(base: map<IP, Version>, n: IP, s: Node) {
    !s.router.pending && Since(base, n, Clock(s)) && IsCurrent(s)
  }

  /** Within reach of u no update is on its way, and all nodes are ready. */
  ghost predicate Ready(base: map<IP, Version>, net: Net, u: IP) {
    Drained(net, u) && forall n :: n in Reach(net, u) ==> IsReady(base, n, net.nodes[n])
  }

  /** A state that a static run from a state with the clocks base has come to, with symmetric
      sessions and nothing left to do within reach of u. */
  ghost predicate Settled(base: map<IP, Version>, net: Net, u: IP) {
    Flowing(base, net) && Symmetric(net) && RoutersSound(net) && Ready(base, net, u)
  }

  function DatabaseOf(net: Net, v: IP): Database
    requires v in net.nodes
  {
    net.nodes[v].router.nodes
  }

  /** One of the node's external routes contains the address. */
  ghost predicate Captures(s: Node, a: IP) {
    exists name :: name in s.routes && Contains(s.routes[name].dest, a)
  }

  lemma ReachJoins(net: Net, u: IP, x: IP, y: IP)
    requires Authentic(net) && Symmetric(net) && x in Reach(net, u) && y in Reach(net, u)
    ensures Joined(net, x, y)
  {
    SymmetricJoined(net, u, x);
    JoinedTransitive(net, x, u, y);
  }

  /** Every node within reach has every other node's current row. */
  lemma RowIsCurrent(base: map<IP, Version>, net: Net, u: IP, v: IP, x: IP)
    requires Settled(base, net, u) && v in Reach(net, u) && x in Reach(net, u)
    ensures x in DatabaseOf(net, v) && Announces(net.nodes[x], DatabaseOf(net, v)[x])
    ensures net.nodes[x].addr == x && |x| == 16
  {
    ReachJoins(net, u, x, v);
    DrainedFrom(net, u, x);
    assert IsReady(base, x, net.nodes[x]);
    QuiescentAgreement(base, net, v, x);
    assert AuthenticNode(net, x, net.nodes[x]);
  }

  // ----- the routers' graphs and the session graph ---------------------------------------

  /** An announced connection that contains another node's address is a session. */
  lemma CoveredIsSession(s: Node, conns: Conns, y: IP, c: Subnet)
    requires GoodNode(s) && Announces(s, conns) && !Captures(s, y) && |y| == 16 && Covers(conns, y, c)
    ensures y in s.sessions && conns[c] == s.sessions[y]
  {
    assert !HasRoute(s, c, conns[c]);
    var m :| m in s.sessions && c == HostOnly(m) && s.sessions[m] == conns[c];
    HostOnlyContains(m, y);
  }

  lemma SessionIsCovered(s: Node, conns: Conns, y: IP)
    requires GoodNode(s) && Announces(s, conns) && y in s.sessions
    ensures Covers(conns, y, HostOnly(y))
  {
    HostOnlyContains(y, y);
  }

  lemma EdgeIsSession(base: map<IP, Version>, net: Net, u: IP, v: IP, g: Graph<IP>, x: IP, y: IP)
    requires Settled(base, net, u) && v in Reach(net, u) && IsInterconnect(DatabaseOf(net, v), g)
    requires x in Reach(net, u) && Edge(g, x, y) && !Captures(net.nodes[x], y)
    ensures y in net.nodes[x].sessions && g[x][y] == net.nodes[x].sessions[y]
  {
    RowIsCurrent(base, net, u, v, x);
    var db := DatabaseOf(net, v);
    assert Router.Sound(v, net.nodes[v].router);
    assert AuthenticNode(net, x, net.nodes[x]);
    assert IsRow(db[x], db.Keys, g[x]);
    var c :| Covers(db[x], y, c) && db[x][c] == g[x][y];
    CoveredIsSession(net.nodes[x], db[x], y, c);
  }

  lemma SessionIsEdge(base: map<IP, Version>, net: Net, u: IP, v: IP, g: Graph<IP>, x: IP, y: IP)
    requires Settled(base, net, u) && v in Reach(net, u) && IsInterconnect(DatabaseOf(net, v), g)
    requires x in Reach(net, u) && y in net.nodes[x].sessions && !Captures(net.nodes[x], y)
    ensures y in Reach(net, u) && Edge(g, x, y) && g[x][y] == net.nodes[x].sessions[y]
  {
    var db := DatabaseOf(net, v);
    NeighbourInReach(net, u, x, y);
    RowIsCurrent(base, net, u, v, x);
    RowIsCurrent(base, net, u, v, y);
    assert AuthenticNode(net, x, net.nodes[x]);
    SessionIsCovered(net.nodes[x], db[x], y);
    assert IsRow(db[x], db.Keys, g[x]);
    EdgeIsSession(base, net, u, v, g, x, y);
  }

  /** No node within reach captures the address of another one within reach. */
  ghost predicate NoneCaptured(net: Net, u: IP) {
    forall x, y :: x in Reach(net, u) && y in Reach(net, u) && y != x ==> !Captures(net.nodes[x], y)
  }

  /** Every chain of sessions is a walk of each router's graph, at the same cost. */
  lemma SessionsCarryOver(base: map<IP, Version>, net: Net, u: IP, v: IP, g: Graph<IP>)
    requires Settled(base, net, u) && NoneCaptured(net, u) && v in Reach(net, u)
    requires IsInterconnect(DatabaseOf(net, v), g)
    ensures EdgesCarryOver(SessionGraph(net), g, Reach(net, u))
  {
    var h := SessionGraph(net);
    forall x, y | x in Reach(net, u) && Edge(h, x, y)
      ensures y in Reach(net, u) && Edge(g, x, y) && g[x][y] == h[x][y]
    {
      NeighbourInReach(net, u, x, y);
      SessionIsEdge(base, net, u, v, g, x, y);
    }
  }

  lemma ReachesToo(base: map<IP, Version>, net: Net, u: IP, v: IP, g: Graph<IP>, d: IP)
    requires Settled(base, net, u) && NoneCaptured(net, u) && v in Reach(net, u)
    requires IsInterconnect(DatabaseOf(net, v), g) && Dist(SessionGraph(net), v, d) < MaxCost
    ensures Dist(g, v, d) < MaxCost
  {
    var w := ShortestWalk(SessionGraph(net), v, d);
    SessionsCarryOver(base, net, u, v, g);
    WalkCarriesOver(SessionGraph(net), g, Reach(net, u), w);
    DistBelow(g, w);
  }

  /** No node within reach of u captures another node's address that v knows. */
  ghost predicate NoCaptureAt(net: Net, u: IP, v: IP)
    requires v in net.nodes
  {
    forall x, y :: x in Reach(net, u) && y in DatabaseOf(net, v) && y != x ==> !Captures(net.nodes[x], y)
  }

  /** No node within reach of u captures the address of another node that any of them knows. */
  ghost predicate NoCapture(net: Net, u: IP) {
    forall v :: v in Reach(net, u) ==> NoCaptureAt(net, u, v)
  }

  lemma NotCaptured(base: map<IP, Version>, net: Net, u: IP)
    requires Settled(base, net, u) && NoCapture(net, u)
    ensures NoneCaptured(net, u)
  {
    forall x, y | x in Reach(net, u) && y in Reach(net, u) && y != x ensures !Captures(net.nodes[x], y) {
      RowIsCurrent(base, net, u, y, y);
      assert NoCaptureAt(net, u, y);
    }
  }

  /** Then each router's graph within reach is the session graph, up to edges from a node to itself.
      Nodes that are known but out of reach have no edge leading to them. */
  lemma GraphIsSessions(base: map<IP, Version>, net: Net, u: IP, v: IP, g: Graph<IP>)
    requires Settled(base, net, u) && NoCapture(net, u) && v in Reach(net, u) && IsInterconnect(DatabaseOf(net, v), g)
    ensures SameButLoops(g, SessionGraph(net), Reach(net, u))
  {
    NotCaptured(base, net, u);
    SessionsCarryOver(base, net, u, v, g);
    assert NoCaptureAt(net, u, v);
    forall x, y | x in Reach(net, u) && Edge(g, x, y) && y != x ensures Edge(SessionGraph(net), x, y) {
      assert IsRow(DatabaseOf(net, v)[x], DatabaseOf(net, v).Keys, g[x]);
      EdgeIsSession(base, net, u, v, g, x, y);
    }
  }

  lemma SessionsArePositive(net: Net, u: IP)
    requires Authentic(net)
    ensures Positive(SessionGraph(net)) && EdgesInside(SessionGraph(net), Reach(net, u))
  {
    var h := SessionGraph(net);
    forall x, y | Edge(h, x, y) ensures h[x][y] > 0 {
      assert AuthenticNode(net, x, net.nodes[x]);
    }
    forall x, y | x in Reach(net, u) && Edge(h, x, y) ensures y in Reach(net, u) {
      NeighbourInReach(net, u, x, y);
    }
  }

  /** Every first hop towards another node within reach that a node's database allows is one over
      sessions. */
  ghost predicate OverSessions(net: Net, u: IP) {
    forall v, d, g, p :: MayHop(net, u, v, d, g, p) ==> FirstHop(SessionGraph(net), v, d, p)
  }

  ghost predicate MayHop(net: Net, u: IP, v: IP, d: IP, g: Graph<IP>, p: IP) {
    && v in Reach(net, u) && d in Reach(net, u) && v != d
    && IsInterconnect(DatabaseOf(net, v), g) && FirstHop(g, v, d, p)
  }

  /** Nothing is in the way of packets between the nodes within reach. */
  ghost predicate Unhindered(net: Net, u: IP) {
    NoneCaptured(net, u) && OverSessions(net, u)
  }

  /** Routes that stay clear of all nodes that are known suffice. */
  lemma NoCaptureUnhindered(base: map<IP, Version>, net: Net, u: IP)
    requires Settled(base, net, u) && NoCapture(net, u)
    ensures Unhindered(net, u)
  {
    NotCaptured(base, net, u);
    forall v, d, g, p | MayHop(net, u, v, d, g, p) ensures FirstHop(SessionGraph(net), v, d, p) {
      GraphIsSessions(base, net, u, v, g);
      GraphIsPositive(base, net, u, v, g);
      LoopsKeepFirstHops(g, SessionGraph(net), Reach(net, u), v, d, p);
    }
  }

  lemma GraphIsPositive(base: map<IP, Version>, net: Net, u: IP, v: IP, g: Graph<IP>)
    requires Settled(base, net, u) && v in Reach(net, u) && IsInterconnect(DatabaseOf(net, v), g)
    ensures Positive(g)
  {
    assert Router.Sound(v, net.nodes[v].router);
    InterconnectPositive(DatabaseOf(net, v), g);
  }

  // ----- next hops -----------------------------------------------------------------------

  ghost function PoliciesOf(net: Net, u: IP): map<IP, Policy> {
    map x | x in Reach(net, u) :: net.nodes[x].router.policy
  }

  /** The graph with which v's router has computed its policy. */
  lemma RouterGraph(base: map<IP, Version>, net: Net, u: IP, v: IP) returns (g: Graph<IP>)
    requires Settled(base, net, u) && v in Reach(net, u)
    ensures CorrectPolicy(DatabaseOf(net, v), g, v, net.nodes[v].router.policy)
    ensures IsInterconnect(DatabaseOf(net, v), g) && Positive(g)
    ensures ValidDatabase(DatabaseOf(net, v)) && Router.CIDRDatabase(DatabaseOf(net, v))
  {
    assert Router.Sound(v, net.nodes[v].router);
    assert IsReady(base, v, net.nodes[v]);
    g :| CorrectPolicy(DatabaseOf(net, v), g, v, net.nodes[v].router.policy);
    InterconnectPositive(DatabaseOf(net, v), g);
  }

  lemma HopTransfers(g: Graph<IP>, h: Graph<IP>, nodes: set<IP>, policy: Policy, v: IP, a: IP, targets: set<IP>)
    requires SameButLoops(g, h, nodes) && Positive(g) && v in nodes && HopLeads(g, policy, v, a, targets)
    ensures HopLeads(h, policy, v, a, targets)
  {
    forall r | Router.IsNextHop(policy, a, r) ensures r.Some? && NearHop(h, v, targets, r.value) {
      LoopsKeepNearHops(g, h, nodes, v, targets, r.value);
    }
  }

  lemma HopOverSession(net: Net, u: IP, v: IP, d: IP, g: Graph<IP>, policy: Policy)
    requires OverSessions(net, u) && v in Reach(net, u) && d in Reach(net, u) && v != d
    requires IsInterconnect(DatabaseOf(net, v), g) && HopLeads(g, policy, v, d, {d})
    ensures HopLeads(SessionGraph(net), policy, v, d, {d})
  {
    forall r | Router.IsNextHop(policy, d, r) ensures r.Some? && NearHop(SessionGraph(net), v, {d}, r.value) {
      FirstHopIsNear(g, v, d, r.value);
      assert MayHop(net, u, v, d, g, r.value);
      FirstHopIsNear(SessionGraph(net), v, d, r.value);
    }
  }

  lemma NodeHopHere(base: map<IP, Version>, net: Net, u: IP, v: IP, d: IP)
    requires Settled(base, net, u) && Unhindered(net, u)
    requires v in Reach(net, u) && d in Reach(net, u) && v != d && Dist(SessionGraph(net), v, d) < MaxCost
    ensures HopLeads(SessionGraph(net), net.nodes[v].router.policy, v, d, {d})
  {
    var g := RouterGraph(base, net, u, v);
    ReachesToo(base, net, u, v, g, d);
    RowIsCurrent(base, net, u, v, d);
    NodeHop(DatabaseOf(net, v), g, d, v, net.nodes[v].router.policy);
    HopOverSession(net, u, v, d, g, net.nodes[v].router.policy);
  }

  lemma NodeAddressLeads(base: map<IP, Version>, net: Net, u: IP, d: IP)
    requires Settled(base, net, u) && Unhindered(net, u) && d in Reach(net, u)
    ensures LeadsTo(SessionGraph(net), PoliciesOf(net, u), d, {d})
  {
    var h := SessionGraph(net);
    forall v | v in PoliciesOf(net, u) && v !in {d} && DistTo(h, v, {d}) < MaxCost
      ensures HopLeads(h, PoliciesOf(net, u)[v], v, d, {d})
    {
      DistToOne(h, v, d);
      NodeHopHere(base, net, u, v, d);
    }
  }

  // ----- packets -------------------------------------------------------------------------

  /** Where a packet leaves the overlay: in a node's own stack or through an external route. */
  datatype Exit = Stack | Outside

  /** Sent at the first node of w, the packet is forwarded along w, losing one of its hop limit
      per link, and handed over at the last node. */
  ghost predicate Travels(net: Net, p: Fwd.Packet, w: Walk<IP>, exit: Exit)
    decreases w
  {
    w.v in net.nodes &&
    match w
    case At(v) =>
      && (exit.Outside? ==> p.hopLimit > 0)
      && Fwd.Send(Fwd.ViewOf(net.nodes[v]), p)
         == Fwd.Outcome([if exit.Stack? then Fwd.Delivered(p) else Fwd.External(p.(hopLimit := p.hopLimit - 1))],
           Fwd.Done, 0)
    case Via(v, rest) =>
      && p.hopLimit > 0
      && Fwd.HopOf(Fwd.ViewOf(net.nodes[v]), p) == Some(Fwd.Hop(rest.v, p.(hopLimit := p.hopLimit - 1)))
      && Travels(net, p.(hopLimit := p.hopLimit - 1), rest, exit)
  }

  /** Each node of w passes packets for address a on to the next one. */
  ghost predicate Forwards(net: Net, a: IP, w: Walk<IP>) {
    w.v in net.nodes &&
    match w
    case At(_) => true
    case Via(v, rest) =>
      var view := Fwd.ViewOf(net.nodes[v]);
      Fwd.Relays(view, a) && Router.RouteTo(view.policy, a) == Some(rest.v) && Forwards(net, a, rest)
  }

  /** Node v hands packets for a over. */
  ghost predicate HandsOver(net: Net, v: IP, a: IP, exit: Exit) {
    && v in net.nodes && net.nodes[v].addr == v && !Fwd.IsMulticast(a)
    && if exit.Stack? then a == v else a != v && Fwd.IsExternal(Fwd.ViewOf(net.nodes[v]), a)
  }

  lemma HandsOverExactly(net: Net, p: Fwd.Packet, v: IP, exit: Exit)
    requires HandsOver(net, v, p.dst, exit)
    ensures Travels(net, p, At(v), exit) <==> (exit.Outside? ==> p.hopLimit >= 2)
  {
    Fwd.SendBounds(Fwd.ViewOf(net.nodes[v]), p);
  }

  lemma LinkExactly(net: Net, p: Fwd.Packet, w: Walk<IP>, exit: Exit)
    requires w.Via? && Forwards(net, p.dst, w)
    ensures Travels(net, p, w, exit) <==> p.hopLimit >= 2 && Travels(net, p.(hopLimit := p.hopLimit - 1), w.rest, exit)
  {
    Fwd.HopExactly(Fwd.ViewOf(net.nodes[w.v]), p);
  }

  /** A packet travels along a chain of forwarding nodes exactly if its hop limit exceeds the
      number of links, or that number plus one if it is to leave through an external route; for
      the sender's own stack any limit will do. */
  lemma {:induction false} TravelsExactly(net: Net, p: Fwd.Packet, w: Walk<IP>, exit: Exit)
    requires Forwards(net, p.dst, w) && HandsOver(net, End(w), p.dst, exit)
    ensures Travels(net, p, w, exit) <==>
            if exit.Outside? then p.hopLimit > Links(w) + 1 else Links(w) == 0 || p.hopLimit > Links(w)
    decreases w
  {
    if w.At? {
      HandsOverExactly(net, p, w.v, exit);
    } else {
      LinkExactly(net, p, w, exit);
      if p.hopLimit >= 2 {
        TravelsExactly(net, p.(hopLimit := p.hopLimit - 1), w.rest, exit);
      }
    }
  }

  /** No packet has two ways. */
  lemma {:induction false} TravelsOneWay(net: Net, p: Fwd.Packet, w: Walk<IP>, exit: Exit, w': Walk<IP>, exit': Exit)
    requires Travels(net, p, w, exit) && Travels(net, p, w', exit') && w.v == w'.v
    ensures w == w' && exit == exit'
    decreases w
  {
    if w.Via? && w'.Via? {
      TravelsOneWay(net, p.(hopLimit := p.hopLimit - 1), w.rest, exit, w'.rest, exit');
    }
  }

  /** A trajectory within reach forwards, if no node on it before the targets captures the address. */
  lemma {:induction false} TrajectoryForwards(base: map<IP, Version>, net: Net, u: IP, a: IP, targets: set<IP>,
                                              w: Walk<IP>)
    requires Settled(base, net, u) && w.v in Reach(net, u) && !Fwd.IsMulticast(a)
    requires forall v :: v in Visited(w) && v in Reach(net, u) && v !in targets ==> v != a && !Captures(net.nodes[v], a)
    requires IsWalk(SessionGraph(net), w) && Trajectory(PoliciesOf(net, u), a, targets, w)
    ensures Forwards(net, a, w)
    decreases w
  {
    if w.Via? {
      NeighbourInReach(net, u, w.v, w.rest.v);
      RelaysHere(base, net, u, w.v, w.rest.v, a);
      TrajectoryForwards(base, net, u, a, targets, w.rest);
    }
  }

  lemma RelaysHere(base: map<IP, Version>, net: Net, u: IP, v: IP, next: IP, a: IP)
    requires Settled(base, net, u) && v in Reach(net, u)
    requires v != a && !Captures(net.nodes[v], a) && !Fwd.IsMulticast(a)
    requires next in net.nodes[v].sessions && Router.IsNextHop(net.nodes[v].router.policy, a, Some(next))
    ensures Fwd.Relays(Fwd.ViewOf(net.nodes[v]), a)
    ensures Router.RouteTo(net.nodes[v].router.policy, a) == Some(next)
  {
    assert AuthenticNode(net, v, net.nodes[v]);
    assert Router.Sound(v, net.nodes[v].router);
    Router.RouteToIs(net.nodes[v].router.policy, a, Some(next));
  }

  // ----- delivery ------------------------------------------------------------------------

  /** The way w serves packets from u for d: it is a cheapest chain of sessions, visits no node
      twice, and each of its nodes passes the packets on to the next. */
  ghost predicate Serves(net: Net, u: IP, d: IP, w: Walk<IP>) {
    && w.v == u && End(w) == d && Simple(w)
    && IsWalk(SessionGraph(net), w) && Cost(SessionGraph(net), w) == Dist(SessionGraph(net), u, d)
    && Forwards(net, d, w)
  }

  ghost predicate Served(net: Net, u: IP, d: IP) {
    exists w :: Serves(net, u, d, w)
  }

  lemma EndInReach(net: Net, u: IP, w: Walk<IP>)
    requires Authentic(net) && IsWalk(SessionGraph(net), w) && w.v in Reach(net, u)
    ensures End(w) in Reach(net, u)
  {
    SessionsArePositive(net, u);
    WalkStaysInside(SessionGraph(net), Reach(net, u), w);
    EndVisited(w);
  }

  lemma ReachedIsJoined(net: Net, u: IP, x: IP, d: IP)
    requires Authentic(net) && x in Reach(net, u) && Dist(SessionGraph(net), x, d) < MaxCost
    ensures d in Reach(net, u)
  {
    var w := ShortestWalk(SessionGraph(net), x, d);
    EndInReach(net, u, w);
  }

  lemma WayTo(net: Net, u: IP, x: IP, d: IP) returns (w: Walk<IP>)
    requires Authentic(net) && LeadsTo(SessionGraph(net), PoliciesOf(net, u), d, {d})
    requires x in Reach(net, u) && Dist(SessionGraph(net), x, d) < MaxCost
    ensures w.v == x && End(w) == d && Simple(w) && Links(w) < |Reach(net, u)|
    ensures IsWalk(SessionGraph(net), w) && Cost(SessionGraph(net), w) == Dist(SessionGraph(net), x, d)
    ensures Trajectory(PoliciesOf(net, u), d, {d}, w)
  {
    SessionsArePositive(net, u);
    w := DeliveryToOne(Reach(net, u), SessionGraph(net), PoliciesOf(net, u), d, d, x);
  }

  /** In a settled network, if nothing is in the way, packets between nodes in reach of each other
      are served, within one link less than there are nodes in reach. */
  lemma SettledDelivers(base: map<IP, Version>, net: Net, u: IP, x: IP, d: IP) returns (w: Walk<IP>)
    requires Settled(base, net, u) && Unhindered(net, u) && x in Reach(net, u)
    requires Dist(SessionGraph(net), x, d) < MaxCost && !Fwd.IsMulticast(d)
    ensures Serves(net, x, d, w) && Links(w) < |Reach(net, u)|
    ensures HandsOver(net, d, d, Stack)
  {
    ReachedIsJoined(net, u, x, d);
    NodeAddressLeads(base, net, u, d);
    w := WayTo(net, u, x, d);
    RowIsCurrent(base, net, u, d, d);
    TrajectoryForwards(base, net, u, d, {d}, w);
  }

  // ----- out-of-band messages ------------------------------------------------------------

  /** Sent at the first node of w, the message is passed along w, its counter one higher with every
      link, and handed to an open port of the last node. */
  ghost predicate OobTravels(net: Net, ports: map<IP, set<nat>>, m: Fwd.Oob, w: Walk<IP>)
    decreases w
  {
    w.v in net.nodes && w.v in ports &&
    var r := Fwd.SendOob(Fwd.ViewOf(net.nodes[w.v]), ports[w.v], m);
    match w
    case At(_) => r == Fwd.ToPort(m)
    case Via(_, rest) => r.OobForwarded? && r.next == rest.v && OobTravels(net, ports, r.message, rest)
  }

  lemma OobLink(net: Net, ports: map<IP, set<nat>>, m: Fwd.Oob, w: Walk<IP>)
    requires w.Via? && Forwards(net, m.dst, w) && w.v in ports
    ensures OobTravels(net, ports, m, w) <==>
            !(29 <= m.hops < 255) && OobTravels(net, ports, m.(hops := Fwd.Incremented(m.hops)), w.rest)
  {
    Fwd.OobExactly(Fwd.ViewOf(net.nodes[w.v]), ports[w.v], m);
  }

  /** Along forwarding nodes a message gets to its destination's port exactly if the port is open and
      the links are no more than its counter leaves it. */
  lemma {:induction false} OobTravelsExactly(net: Net, ports: map<IP, set<nat>>, m: Fwd.Oob, w: Walk<IP>)
    requires Forwards(net, m.dst, w) && End(w) == m.dst && net.nodes.Keys <= ports.Keys
    requires m.dst in net.nodes && net.nodes[m.dst].addr == m.dst
    ensures OobTravels(net, ports, m, w) <==> m.destPort in ports[m.dst] && Links(w) <= Fwd.OobBudget(m.hops)
    decreases w
  {
    if w.At? {
      Fwd.OobExactly(Fwd.ViewOf(net.nodes[w.v]), ports[w.v], m);
    } else {
      OobLink(net, ports, m, w);
      OobTravelsExactly(net, ports, m.(hops := Fwd.Incremented(m.hops)), w.rest);
    }
  }

  lemma ServedReachesPorts(net: Net, u: IP, d: IP, ports: map<IP, set<nat>>, w: Walk<IP>)
    requires Serves(net, u, d, w) && HandsOver(net, d, d, Stack) && net.nodes.Keys <= ports.Keys
    ensures d in ports
    ensures forall m: Fwd.Oob :: m.dst == d && m.hops == 0 ==>
              (OobTravels(net, ports, m, w) <==> m.destPort in ports[d] && Links(w) <= 29)
  {
    forall m: Fwd.Oob | m.dst == d && m.hops == 0
      ensures OobTravels(net, ports, m, w) <==> m.destPort in ports[d] && Links(w) <= 29
    {
      OobTravelsExactly(net, ports, m, w);
    }
  }

  /** No message has two ways. */
  lemma {:induction false} OobOneWay(net: Net, ports: map<IP, set<nat>>, m: Fwd.Oob, w: Walk<IP>, w': Walk<IP>)
    requires OobTravels(net, ports, m, w) && OobTravels(net, ports, m, w') && w.v == w'.v
    ensures w == w'
    decreases w
  {
    if w.Via? && w'.Via? {
      var r := Fwd.SendOob(Fwd.ViewOf(net.nodes[w.v]), ports[w.v], m);
      OobOneWay(net, ports, r.message, w.rest, w'.rest);
    }
  }

  // ----- capture -------------------------------------------------------------------------

  lemma CapturedIsExternal(s: Node, a: IP)
    ensures Captures(s, a) <==> Fwd.IsExternal(Fwd.ViewOf(s), a)
  {
    if Captures(s, a) {
      var name :| name in s.routes && Contains(s.routes[name].dest, a);
      assert s.routes[name].dest in Fwd.ViewOf(s).externals;
    }
  }

  /** The failing input: at a node with an external route that contains another node's address,
      no packet for that address, whatever its hop limit, ever gets to that node. */
  lemma CapturedNeverArrives(net: Net, n: IP, d: IP, p: Fwd.Packet, w: Walk<IP>)
    requires n in net.nodes && net.nodes[n].addr == n && n != d && Captures(net.nodes[n], d)
    requires p.dst == d && w.v == n
    ensures !Travels(net, p, w, Stack) && !Served(net, n, d)
  {
    var view := Fwd.ViewOf(net.nodes[n]);
    CapturedIsExternal(net.nodes[n], d);
    Fwd.HopExactly(view, p);
    if w.At? && Travels(net, p, w, Stack) {
      assert Fwd.Delivered(p) in Fwd.Send(view, p).out;
      Fwd.DeliveredExactly(view, p, p);
    }
  }

  /** No chain of sessions within reach costs as much as the largest float32. */
  ghost predicate Affordable(net: Net, u: IP) {
    forall x, y :: x in Reach(net, u) && y in Reach(net, u) ==> Dist(SessionGraph(net), x, y) < MaxCost
  }

  ghost predicate NoneMulticast(nodes: set<IP>) {
    forall n :: n in nodes ==> !Fwd.IsMulticast(n)
  }

  ghost predicate AllServed(net: Net, u: IP) {
    forall x, d :: x in Reach(net, u) && d in Reach(net, u) ==> Served(net, x, d)
  }

  lemma UnhinderedServes(base: map<IP, Version>, net: Net, u: IP)
    requires Settled(base, net, u) && Unhindered(net, u) && Affordable(net, u) && NoneMulticast(net.nodes.Keys)
    ensures AllServed(net, u)
  {
    forall x, d | x in Reach(net, u) && d in Reach(net, u) ensures Served(net, x, d) {
      var w := SettledDelivers(base, net, u, x, d);
    }
  }

  lemma ServesUncaptured(net: Net, u: IP)
    requires Authentic(net) && AllServed(net, u)
    ensures NoneCaptured(net, u)
  {
    forall x, y | x in Reach(net, u) && y in Reach(net, u) && y != x ensures !Captures(net.nodes[x], y) {
      if Captures(net.nodes[x], y) {
        assert AuthenticNode(net, x, net.nodes[x]);
        CapturedNeverArrives(net, x, y, Fwd.Packet(x, y, 2, Fwd.Data([])), At(x));
      }
    }
  }

  // ----- the exact condition -------------------------------------------------------------

  ghost predicate OnlyRecalculations(steps: seq<Step>) {
    forall i :: 0 <= i < |steps| ==> steps[i].Recalculate?
  }

  /** However the routers recalculate, all packets within reach are served. */
  ghost predicate AlwaysServed(crypto: Crypto, net: Net, u: IP) {
    forall steps :: IsRun(crypto, net, steps) && OnlyRecalculations(steps) ==> AllServed(Exec(crypto, net, steps), u)
  }

  /** The node is the same but for its policy. */
  ghost predicate SameButPolicy(s: Node, t: Node) {
    && t == s.(router := t.router) && t.router.nodes == s.router.nodes
    && (t.router.pending ==> s.router.pending)
  }

  ghost predicate SameButPolicies(net: Net, end: Net) {
    && end.inflight == net.inflight && end.nodes.Keys == net.nodes.Keys
    && forall n :: n in net.nodes ==> SameButPolicy(net.nodes[n], end.nodes[n])
  }

  lemma RecalculationStep(crypto: Crypto, net: Net, step: Step)
    requires Enabled(net, step) && step.Recalculate?
    ensures SameButPolicies(net, Apply(crypto, net, step))
  {
  }

  lemma {:induction false} RecalculationRun(crypto: Crypto, net: Net, steps: seq<Step>)
    requires IsRun(crypto, net, steps) && OnlyRecalculations(steps)
    ensures SameButPolicies(net, Exec(crypto, net, steps))
    decreases steps
  {
    if steps != [] {
      RecalculationStep(crypto, net, steps[0]);
      RecalculationRun(crypto, Apply(crypto, net, steps[0]), steps[1..]);
    }
  }

  lemma SamePoliciesSameGraph(net: Net, end: Net, u: IP)
    requires SameButPolicies(net, end)
    ensures SessionGraph(net) == SessionGraph(end) && Reach(net, u) == Reach(end, u)
  {
    forall n | n in net.nodes ensures SessionGraph(net)[n] == SessionGraph(end)[n] {
      assert SameButPolicy(net.nodes[n], end.nodes[n]);
    }
    assert SessionGraph(net) == SessionGraph(end);
    SameReach(net, end, u);
  }

  lemma ReadyAgain(base: map<IP, Version>, n: IP, s: Node, t: Node)
    requires SameButPolicy(s, t) && IsReady(base, n, s)
    ensures IsReady(base, n, t)
  {
    if s.addr in s.router.nodes {
      SameAnnouncements(s, t, s.router.nodes[s.addr]);
    }
  }

  lemma ReadyStays(base: map<IP, Version>, net: Net, end: Net, u: IP)
    requires SameButPolicies(net, end) && Ready(base, net, u)
    ensures Ready(base, end, u)
  {
    SamePoliciesSameGraph(net, end, u);
    forall n | n in Reach(end, u) ensures IsReady(base, n, end.nodes[n]) {
      assert SameButPolicy(net.nodes[n], end.nodes[n]);
      ReadyAgain(base, n, net.nodes[n], end.nodes[n]);
    }
  }

  lemma RecalculationKeepsSettled(crypto: Crypto, base: map<IP, Version>, net: Net, steps: seq<Step>, u: IP)
    requires Settled(base, net, u) && IsRun(crypto, net, steps) && OnlyRecalculations(steps)
    ensures Settled(base, Exec(crypto, net, steps), u)
  {
    var end := Exec(crypto, net, steps);
    RecalculationRun(crypto, net, steps);
    StaticRunFlows(crypto, base, net, steps);
    SameGraphSymmetric(net, end);
    RunKeepsRouters(crypto, net, steps);
    ReadyStays(base, net, end, u);
  }

  lemma UnhinderedStays(net: Net, end: Net, u: IP)
    requires SameButPolicies(net, end) && Unhindered(net, u)
    ensures Unhindered(end, u)
  {
    SamePoliciesSameGraph(net, end, u);
    forall x, y | x in Reach(end, u) && y in Reach(end, u) && y != x ensures !Captures(end.nodes[x], y) {
      assert SameButPolicy(net.nodes[x], end.nodes[x]) && !Captures(net.nodes[x], y);
    }
    forall v, d, g, p | MayHop(end, u, v, d, g, p) ensures FirstHop(SessionGraph(end), v, d, p) {
      assert SameButPolicy(net.nodes[v], end.nodes[v]);
      assert MayHop(net, u, v, d, g, p);
    }
  }

  lemma UnhinderedAlwaysServes(crypto: Crypto, base: map<IP, Version>, net: Net, u: IP)
    requires Settled(base, net, u) && Unhindered(net, u) && Affordable(net, u) && NoneMulticast(net.nodes.Keys)
    ensures AlwaysServed(crypto, net, u)
  {
    forall steps | IsRun(crypto, net, steps) && OnlyRecalculations(steps)
      ensures AllServed(Exec(crypto, net, steps), u)
    {
      var end := Exec(crypto, net, steps);
      RecalculationRun(crypto, net, steps);
      RecalculationKeepsSettled(crypto, base, net, steps, u);
      SamePoliciesSameGraph(net, end, u);
      UnhinderedStays(net, end, u);
      UnhinderedServes(base, end, u);
    }
  }

  /** A correct policy of v that routes d over p. */
  lemma PickedPolicy(db: Database, g: Graph<IP>, v: IP, d: IP, p: IP) returns (policy: Policy)
    requires ValidDatabase(db) && Router.CIDRDatabase(db) && IsInterconnect(db, g)
    requires d in db && d != v && FirstHop(g, v, d, p)
    ensures (exists h :: CorrectPolicy(db, h, v, policy)) && Router.RouteTo(policy, d) == Some(p)
  {
    policy := PolicyWithHop(db, g, v, d, p);
    PickedRoute(db, g, v, policy, d);
  }

  lemma PolicyWithHop(db: Database, g: Graph<IP>, v: IP, d: IP, p: IP) returns (policy: Policy)
    requires ValidDatabase(db) && IsInterconnect(db, g) && d in db && d != v && FirstHop(g, v, d, p)
    ensures CorrectPolicy(db, g, v, policy) && HostOnly(d) in policy && policy[HostOnly(d)] == p
  {
    var picks := map[d := p];
    policy := PolicyExistence.CorrectPolicyFor(db, g, v, picks);
    assert d in picks;
  }

  lemma RecalculateEnabled(net: Net, v: IP, policy: Policy)
    requires v in net.nodes && ValidDatabase(DatabaseOf(net, v))
    requires exists h :: CorrectPolicy(DatabaseOf(net, v), h, v, policy)
    ensures Enabled(net, Recalculate(v, policy))
  {
  }

  /** v recalculates and picks p as its next hop for d. */
  lemma PickHop(net: Net, v: IP, d: IP, g: Graph<IP>, p: IP) returns (step: Step)
    requires RoutersSound(net) && v in net.nodes && d in DatabaseOf(net, v) && d != v
    requires IsInterconnect(DatabaseOf(net, v), g) && FirstHop(g, v, d, p)
    ensures step.Recalculate? && step.n == v && Enabled(net, step) && Router.RouteTo(step.policy, d) == Some(p)
  {
    SoundDatabase(net, v);
    var policy := PickedPolicy(DatabaseOf(net, v), g, v, d, p);
    RecalculateEnabled(net, v, policy);
    step := Recalculate(v, policy);
  }

  lemma SoundDatabase(net: Net, v: IP)
    requires RoutersSound(net) && v in net.nodes
    ensures ValidDatabase(DatabaseOf(net, v)) && Router.CIDRDatabase(DatabaseOf(net, v))
  {
    assert Router.Sound(v, net.nodes[v].router);
  }

  lemma PickedRoute(db: Database, g: Graph<IP>, v: IP, policy: Policy, d: IP)
    requires ValidDatabase(db) && Router.CIDRDatabase(db) && CorrectPolicy(db, g, v, policy)
    requires d in db && d != v && Dist(g, v, d) < MaxCost
    ensures HostOnly(d) in policy && Router.RouteTo(policy, d) == Some(policy[HostOnly(d)])
  {
    Router.CorrectPolicyIsCIDR(db, g, v, policy);
    var r := Router.NextHopExists(policy, d);
    Router.NextHopOfNode(db, g, v, policy, d, r);
    Router.RouteToIs(policy, d, r);
  }

  /** The first link of a way that serves starts a shortest walk. */
  lemma ServedOverSession(net: Net, v: IP, d: IP, p: IP)
    requires Served(net, v, d) && v != d && v in net.nodes && Dist(SessionGraph(net), v, d) < MaxCost
    requires Router.RouteTo(net.nodes[v].router.policy, d) == Some(p)
    ensures FirstHop(SessionGraph(net), v, d, p)
  {
    var w :| Serves(net, v, d, w);
    assert w == Via(v, w.rest) && w.rest.v == p;
    assert Joins(SessionGraph(net), w, v, d);
    FirstHopStartsShortestWalk(SessionGraph(net), v, d, p);
  }

  lemma ServedAfter(crypto: Crypto, net: Net, u: IP, step: Step)
    requires AlwaysServed(crypto, net, u) && Enabled(net, step) && step.Recalculate?
    ensures AllServed(Apply(crypto, net, step), u)
  {
    OneStepRun(crypto, net, step);
    assert OnlyRecalculations([step]);
  }

  lemma AfterPicking(crypto: Crypto, net: Net, step: Step, u: IP)
    requires Enabled(net, step) && step.Recalculate?
    ensures var end := Apply(crypto, net, step);
            && step.n in end.nodes && end.nodes[step.n].router.policy == step.policy
            && SessionGraph(net) == SessionGraph(end) && Reach(net, u) == Reach(end, u)
  {
    RecalculationStep(crypto, net, step);
    SamePoliciesSameGraph(net, Apply(crypto, net, step), u);
  }

  lemma ServedIsOverSessions(crypto: Crypto, base: map<IP, Version>, net: Net, u: IP, v: IP, d: IP, g: Graph<IP>, p: IP)
    requires Settled(base, net, u) && AlwaysServed(crypto, net, u) && Affordable(net, u) && MayHop(net, u, v, d, g, p)
    ensures FirstHop(SessionGraph(net), v, d, p)
  {
    RowIsCurrent(base, net, u, v, d);
    var step := PickHop(net, v, d, g, p);
    AfterPicking(crypto, net, step, u);
    ServedAfter(crypto, net, u, step);
    ServedOverSession(Apply(crypto, net, step), v, d, p);
  }

  lemma OneStepRun(crypto: Crypto, net: Net, step: Step)
    requires Enabled(net, step)
    ensures IsRun(crypto, net, [step]) && Exec(crypto, net, [step]) == Apply(crypto, net, step)
  {
    assert [step][1..] == [];
  }

  /** The exact condition, in every settled network, recovered ones included: however the routers
      recalculate, all packets within reach are served, if and only if no external route captures
      the address of a node within reach and no database, stale announcements included, allows a
      first hop that is not one over sessions. */
  lemma DeliveryExactly(crypto: Crypto, base: map<IP, Version>, net: Net, u: IP)
    requires Settled(base, net, u) && Affordable(net, u) && NoneMulticast(net.nodes.Keys)
    ensures AlwaysServed(crypto, net, u) <==> Unhindered(net, u)
  {
    if Unhindered(net, u) {
      UnhinderedAlwaysServes(crypto, base, net, u);
    }
    if AlwaysServed(crypto, net, u) {
      assert IsRun(crypto, net, []) && OnlyRecalculations([]) && Exec(crypto, net, []) == net;
      ServesUncaptured(net, u);
      forall v, d, g, p | MayHop(net, u, v, d, g, p) ensures FirstHop(SessionGraph(net), v, d, p) {
        ServedIsOverSessions(crypto, base, net, u, v, d, g, p);
      }
    }
  }

  /** Nodes within reach know only nodes within reach. */
  ghost predicate OnlyReachKnown(net: Net, u: IP) {
    forall v, y :: v in Reach(net, u) && y in DatabaseOf(net, v) ==> y in Reach(net, u)
  }

  lemma NoneCapturedKnown(net: Net, u: IP)
    requires OnlyReachKnown(net, u) && NoneCaptured(net, u)
    ensures NoCapture(net, u)
  {
    forall v | v in Reach(net, u) ensures NoCaptureAt(net, u, v) {
      forall x, y | x in Reach(net, u) && y in DatabaseOf(net, v) && y != x ensures !Captures(net.nodes[x], y) {
        assert y in Reach(net, u);
      }
    }
  }

  /** Among nodes that know only each other the condition is on external routes alone, and it is
      exact for the policies that they have. */
  lemma DeliveryAmongKnown(base: map<IP, Version>, net: Net, u: IP)
    requires Settled(base, net, u) && OnlyReachKnown(net, u) && Affordable(net, u) && NoneMulticast(net.nodes.Keys)
    ensures AllServed(net, u) <==> NoneCaptured(net, u)
  {
    if NoneCaptured(net, u) {
      NoneCapturedKnown(net, u);
      NoCaptureUnhindered(base, net, u);
      UnhinderedServes(base, net, u);
    }
    if AllServed(net, u) {
      ServesUncaptured(net, u);
    }
  }

  // ----- addresses behind nodes ----------------------------------------------------------

  /** To every node within reach, address a is behind the same advertisers. */
  ghost predicate BehindForAll(net: Net, u: IP, a: IP, advertisers: set<IP>) {
    forall v :: v in Reach(net, u) ==> Behind(DatabaseOf(net, v), a, advertisers)
  }

  lemma SteersTransfers(g: Graph<IP>, h: Graph<IP>, nodes: set<IP>, v: IP, advertisers: set<IP>)
    requires SameButLoops(g, h, nodes) && Positive(g) && v in nodes && Steers(h, v, advertisers)
    ensures Steers(g, v, advertisers)
  {
    forall n | n in advertisers ensures n != v && Dist(g, v, n) < MaxCost {
      LoopsKeepDistances(g, h, nodes, v, n);
    }
    forall p | CanWin(g, v, advertisers, p) ensures NearHop(g, v, advertisers, p) {
      CanWinTransfers(g, h, nodes, v, advertisers, p);
      LoopsKeepNearHops(g, h, nodes, v, advertisers, p);
    }
  }

  lemma CanWinTransfers(g: Graph<IP>, h: Graph<IP>, nodes: set<IP>, v: IP, advertisers: set<IP>, p: IP)
    requires SameButLoops(g, h, nodes) && Positive(g) && v in nodes && CanWin(g, v, advertisers, p)
    ensures CanWin(h, v, advertisers, p)
  {
    var n :| n in advertisers && FirstHop(g, v, n, p);
    LoopsKeepFirstHops(g, h, nodes, v, n, p);
    forall m | m in advertisers ensures exists q :: FirstHop(h, v, m, q) && Dist(h, v, p) <= Dist(h, v, q) {
      var q :| FirstHop(g, v, m, q) && Dist(g, v, p) <= Dist(g, v, q);
      LoopsKeepFirstHops(g, h, nodes, v, m, q);
      LoopsKeepDistances(g, h, nodes, v, p);
      LoopsKeepDistances(g, h, nodes, v, q);
    }
  }

  lemma BehindHopHere(base: map<IP, Version>, net: Net, u: IP, v: IP, a: IP, advertisers: set<IP>)
    requires Settled(base, net, u) && NoCapture(net, u) && v in Reach(net, u)
    requires Behind(DatabaseOf(net, v), a, advertisers) && Steers(SessionGraph(net), v, advertisers)
    ensures HopLeads(SessionGraph(net), net.nodes[v].router.policy, v, a, advertisers)
  {
    var g := RouterGraph(base, net, u, v);
    GraphIsSessions(base, net, u, v, g);
    SteersTransfers(g, SessionGraph(net), Reach(net, u), v, advertisers);
    BehindHop(DatabaseOf(net, v), g, v, net.nodes[v].router.policy, a, advertisers);
    HopTransfers(g, SessionGraph(net), Reach(net, u), net.nodes[v].router.policy, v, a, advertisers);
  }

  lemma BehindLeadsHere(base: map<IP, Version>, net: Net, u: IP, a: IP, advertisers: set<IP>)
    requires Settled(base, net, u) && NoCapture(net, u) && BehindForAll(net, u, a, advertisers)
    requires AllSteer(Reach(net, u), SessionGraph(net), advertisers)
    ensures LeadsTo(SessionGraph(net), PoliciesOf(net, u), a, advertisers)
  {
    var h := SessionGraph(net);
    forall v | v in PoliciesOf(net, u) && v !in advertisers && DistTo(h, v, advertisers) < MaxCost
      ensures HopLeads(h, PoliciesOf(net, u)[v], v, a, advertisers)
    {
      BehindHopHere(base, net, u, v, a, advertisers);
    }
  }

  /** What a node advertises for an address that is no node's is an external route. */
  lemma AdvertiserCaptures(base: map<IP, Version>, net: Net, u: IP, v: IP, a: IP, s: Subnet)
    requires Settled(base, net, u) && v in Reach(net, u)
    requires |a| == 16 && a !in DatabaseOf(net, v) && Advertises(DatabaseOf(net, v), v, s) && Contains(s, a)
    ensures Captures(net.nodes[v], a)
  {
    if !Captures(net.nodes[v], a) {
      RowIsCurrent(base, net, u, v, v);
      assert AuthenticNode(net, v, net.nodes[v]);
      CoveredIsSession(net.nodes[v], DatabaseOf(net, v)[v], a, s);
      NeighbourInReach(net, u, v, a);
      RowIsCurrent(base, net, u, v, a);
      assert false;
    }
  }

  lemma BehindCaptures(base: map<IP, Version>, net: Net, u: IP, v: IP, a: IP, advertisers: set<IP>)
    requires Settled(base, net, u) && v in Reach(net, u) && Behind(DatabaseOf(net, v), a, advertisers)
    ensures v != a && (v in advertisers ==> Captures(net.nodes[v], a))
  {
    RowIsCurrent(base, net, u, v, v);
    if v in advertisers {
      var s :| BehindVia(DatabaseOf(net, v), a, s, advertisers);
      AdvertiserCaptures(base, net, u, v, a, s);
    }
  }

  lemma WayOut(net: Net, u: IP, x: IP, a: IP, targets: set<IP>) returns (w: Walk<IP>)
    requires Authentic(net) && LeadsTo(SessionGraph(net), PoliciesOf(net, u), a, targets)
    requires x in Reach(net, u) && DistTo(SessionGraph(net), x, targets) < MaxCost
    ensures w.v == x && End(w) in targets && Simple(w) && Links(w) < |Reach(net, u)| && End(w) in Reach(net, u)
    ensures IsWalk(SessionGraph(net), w) && Cost(SessionGraph(net), w) == DistTo(SessionGraph(net), x, targets)
    ensures Trajectory(PoliciesOf(net, u), a, targets, w)
    ensures forall v :: v in Visited(w) ==> DistTo(SessionGraph(net), v, targets) < MaxCost
  {
    SessionsArePositive(net, u);
    w := Delivery(Reach(net, u), SessionGraph(net), PoliciesOf(net, u), a, targets, x);
    TrajectoryDescends(SessionGraph(net), PoliciesOf(net, u), a, targets, w);
    EndInReach(net, u, w);
  }

  /** The way w takes packets for a from x out of the overlay at a nearest advertiser: it is a
      cheapest chain of sessions, visits no node twice, each of its nodes passes the packets on to
      the next, and the last one has an external route for them. */
  ghost predicate Leaves(net: Net, x: IP, a: IP, advertisers: set<IP>, w: Walk<IP>) {
    && w.v == x && End(w) in advertisers && Simple(w) && Forwards(net, a, w)
    && IsWalk(SessionGraph(net), w) && Cost(SessionGraph(net), w) == DistTo(SessionGraph(net), x, advertisers)
    && HandsOver(net, End(w), a, Outside)
  }

  /** Of the nodes within reach that can reach an advertiser, only advertisers have an external
      route, however wide, for the address. */
  ghost predicate NoneElseCaptures(net: Net, u: IP, a: IP, advertisers: set<IP>) {
    forall v :: v in Reach(net, u) && v !in advertisers && DistTo(SessionGraph(net), v, advertisers) < MaxCost ==>
      !Captures(net.nodes[v], a)
  }

  /** In a settled network without captured nodes, packets for an address behind some advertisers
      leave the overlay at one of them that is nearest over sessions, if the condition for nearest
      advertisers holds in the session graph and no other node captures the address. */
  lemma SettledLeaves(base: map<IP, Version>, net: Net, u: IP, x: IP, a: IP, advertisers: set<IP>) returns (w: Walk<IP>)
    requires Settled(base, net, u) && NoCapture(net, u) && BehindForAll(net, u, a, advertisers)
    requires AllSteer(Reach(net, u), SessionGraph(net), advertisers) && !Fwd.IsMulticast(a)
    requires NoneElseCaptures(net, u, a, advertisers)
    requires x in Reach(net, u) && DistTo(SessionGraph(net), x, advertisers) < MaxCost
    ensures Leaves(net, x, a, advertisers, w) && Links(w) < |Reach(net, u)|
  {
    BehindLeadsHere(base, net, u, a, advertisers);
    w := WayOut(net, u, x, a, advertisers);
    forall v | v in Visited(w) && v in Reach(net, u) && v !in advertisers ensures v != a && !Captures(net.nodes[v], a) {
      BehindCaptures(base, net, u, v, a, advertisers);
    }
    TrajectoryForwards(base, net, u, a, advertisers, w);
    BehindCaptures(base, net, u, End(w), a, advertisers);
    CaptorHandsOver(net, End(w), a);
  }

  lemma CaptorHandsOver(net: Net, v: IP, a: IP)
    requires Authentic(net) && v in net.nodes && v != a && Captures(net.nodes[v], a) && !Fwd.IsMulticast(a)
    ensures HandsOver(net, v, a, Outside)
  {
    assert AuthenticNode(net, v, net.nodes[v]);
    CapturedIsExternal(net.nodes[v], a);
  }

  /** The failing input: a node with any external route for an address, however wide, keeps its own
      packets for it, whoever advertises a more specific one. */
  lemma CaptorKeeps(net: Net, v: IP, p: Fwd.Packet)
    requires Authentic(net) && v in net.nodes && v != p.dst && Captures(net.nodes[v], p.dst)
    requires !Fwd.IsMulticast(p.dst) && p.hopLimit >= 2
    ensures forall w: Walk<IP>, exit :: w.v == v && Travels(net, p, w, exit) <==> w == At(v) && exit == Outside
  {
    CaptorHandsOver(net, v, p.dst);
    TravelsExactly(net, p, At(v), Outside);
    forall w: Walk<IP>, exit | w.v == v && Travels(net, p, w, exit) ensures w == At(v) && exit == Outside {
      TravelsOneWay(net, p, w, exit, At(v), Outside);
    }
  }

  /** From every node within reach that can reach an advertiser packets for a leave at a nearest
      one. */
  ghost predicate AllLeave(net: Net, u: IP, a: IP, advertisers: set<IP>) {
    forall x :: x in Reach(net, u) && DistTo(SessionGraph(net), x, advertisers) < MaxCost ==>
      exists w :: Leaves(net, x, a, advertisers, w)
  }

  lemma LeavesPastNone(net: Net, u: IP, a: IP, advertisers: set<IP>)
    requires AllLeave(net, u, a, advertisers)
    ensures NoneElseCaptures(net, u, a, advertisers)
  {
    forall v | v in Reach(net, u) && v !in advertisers && DistTo(SessionGraph(net), v, advertisers) < MaxCost
      ensures !Captures(net.nodes[v], a)
    {
      var w :| Leaves(net, v, a, advertisers, w);
      assert w.Via? && Fwd.Relays(Fwd.ViewOf(net.nodes[v]), a);
      CapturedIsExternal(net.nodes[v], a);
    }
  }

  /** The exact condition: packets leave at the advertisers of the longest subnet if and only if no
      other node has an external route for the address. */
  lemma LeavingExactly(base: map<IP, Version>, net: Net, u: IP, a: IP, advertisers: set<IP>)
    requires Settled(base, net, u) && NoCapture(net, u) && BehindForAll(net, u, a, advertisers)
    requires AllSteer(Reach(net, u), SessionGraph(net), advertisers) && !Fwd.IsMulticast(a)
    ensures AllLeave(net, u, a, advertisers) <==> NoneElseCaptures(net, u, a, advertisers)
  {
    if NoneElseCaptures(net, u, a, advertisers) {
      forall x | x in Reach(net, u) && DistTo(SessionGraph(net), x, advertisers) < MaxCost
        ensures exists w :: Leaves(net, x, a, advertisers, w)
      {
        var w := SettledLeaves(base, net, u, x, a, advertisers);
      }
    }
    if AllLeave(net, u, a, advertisers) {
      LeavesPastNone(net, u, a, advertisers);
    }
  }

  /** In particular for an address whose longest subnet one node alone advertises, like those of the
      namespaces and tunnels of a node. */
  lemma LeavingAtSoleExactly(base: map<IP, Version>, net: Net, u: IP, a: IP, c: IP)
    requires Settled(base, net, u) && NoCapture(net, u) && BehindForAll(net, u, a, {c}) && !Fwd.IsMulticast(a)
    ensures AllLeave(net, u, a, {c}) <==> NoneElseCaptures(net, u, a, {c})
  {
    SoleAdvertiserAllSteer(Reach(net, u), SessionGraph(net), c);
    LeavingExactly(base, net, u, a, {c});
  }

  lemma SettledLeavesAtSole(base: map<IP, Version>, net: Net, u: IP, x: IP, a: IP, c: IP) returns (w: Walk<IP>)
    requires Settled(base, net, u) && NoCapture(net, u) && BehindForAll(net, u, a, {c}) && !Fwd.IsMulticast(a)
    requires NoneElseCaptures(net, u, a, {c}) && x in Reach(net, u) && Dist(SessionGraph(net), x, c) < MaxCost
    ensures Leaves(net, x, a, {c}, w)
    ensures End(w) == c && Cost(SessionGraph(net), w) == Dist(SessionGraph(net), x, c)
  {
    SoleAdvertiserAllSteer(Reach(net, u), SessionGraph(net), c);
    DistToOne(SessionGraph(net), x, c);
    w := SettledLeaves(base, net, u, x, a, {c});
  }

  // ----- over whole runs -----------------------------------------------------------------

  lemma RunSettles(crypto: Crypto, net: Net, steps: seq<Step>, u: IP)
    requires Authentic(net) && RoutersSound(net) && Symmetric(net) && StaticRun(crypto, net, steps)
    requires CIDRSteps(steps)
    requires Ready(Clocks(net), Exec(crypto, net, steps), u)
    ensures Settled(Clocks(net), Exec(crypto, net, steps), u)
    ensures SessionGraph(Exec(crypto, net, steps)) == SessionGraph(net)
  {
    AuthenticFlows(net);
    StaticRunFlows(crypto, Clocks(net), net, steps);
    SameGraphSymmetric(net, Exec(crypto, net, steps));
    RunKeepsRouters(crypto, net, steps);
  }

  /** The headline chain.  Take any state that can come about, after whatever restarts, losses and
      session changes, with symmetric sessions.  Let the nodes flood, accept, recalculate, add and
      remove external routes and exchange configurations in any order, without further loss,
      pruning, restarts or session changes.  Whenever, within u's reach, no update is on its way, no
      recalculation is pending, all nodes have announced their current connections again, and
      nothing is in the way, a packet from u for d arrives exactly if its hop limit exceeds the
      links of one cheapest chain of sessions. */
  lemma QuiescentNetworkDelivers(crypto: Crypto, net: Net, steps: seq<Step>, u: IP, d: IP) returns (w: Walk<IP>)
    requires Authentic(net) && RoutersSound(net) && Symmetric(net) && StaticRun(crypto, net, steps)
    requires CIDRSteps(steps)
    requires Ready(Clocks(net), Exec(crypto, net, steps), u) && Unhindered(Exec(crypto, net, steps), u)
    requires u in net.nodes && Dist(SessionGraph(net), u, d) < MaxCost && !Fwd.IsMulticast(d)
    ensures w.v == u && End(w) == d && Simple(w) && Links(w) < |net.nodes|
    ensures IsWalk(SessionGraph(net), w) && Cost(SessionGraph(net), w) == Dist(SessionGraph(net), u, d)
    ensures forall p: Fwd.Packet :: p.dst == d ==>
              (Travels(Exec(crypto, net, steps), p, w, Stack) <==> Links(w) == 0 || p.hopLimit > Links(w))
  {
    var end := Exec(crypto, net, steps);
    RunSettles(crypto, net, steps, u);
    RunKeepsNodes(crypto, net, steps);
    JoinedSelf(end, u);
    w := SettledDelivers(Clocks(net), end, u, u, d);
    Router.SubsetSize(Reach(end, u), end.nodes.Keys);
    forall p: Fwd.Packet | p.dst == d ensures Travels(end, p, w, Stack) <==> Links(w) == 0 || p.hopLimit > Links(w) {
      TravelsExactly(end, p, w, Stack);
    }
  }

  /** The same for an out-of-band message, whose counter its sender sets to zero: it gets from u to an
      open port of d exactly if the links are at most 29. */
  lemma QuiescentNetworkReachesPorts(crypto: Crypto, net: Net, steps: seq<Step>, u: IP, d: IP, ports: map<IP, set<nat>>)
    returns (w: Walk<IP>)
    requires Authentic(net) && RoutersSound(net) && Symmetric(net) && StaticRun(crypto, net, steps)
    requires CIDRSteps(steps)
    requires Ready(Clocks(net), Exec(crypto, net, steps), u) && Unhindered(Exec(crypto, net, steps), u)
    requires u in net.nodes && Dist(SessionGraph(net), u, d) < MaxCost && !Fwd.IsMulticast(d)
    requires net.nodes.Keys <= ports.Keys
    ensures d in ports && w.v == u && End(w) == d && Simple(w) && IsWalk(SessionGraph(net), w)
    ensures Cost(SessionGraph(net), w) == Dist(SessionGraph(net), u, d)
    ensures forall m: Fwd.Oob :: m.dst == d && m.hops == 0 ==>
              (OobTravels(Exec(crypto, net, steps), ports, m, w) <==> m.destPort in ports[d] && Links(w) <= 29)
  {
    var end := Exec(crypto, net, steps);
    RunSettles(crypto, net, steps, u);
    RunKeepsNodes(crypto, net, steps);
    JoinedSelf(end, u);
    w := SettledDelivers(Clocks(net), end, u, u, d);
    ServedReachesPorts(end, u, d, ports, w);
  }

  /** The same for an address whose longest subnet node c alone advertises: the packet leaves the
      overlay at c exactly if its hop limit exceeds the links of one cheapest chain of sessions by
      two. */
  lemma QuiescentNetworkLeaves(crypto: Crypto, net: Net, steps: seq<Step>, u: IP, a: IP, c: IP) returns (w: Walk<IP>)
    requires Authentic(net) && RoutersSound(net) && Symmetric(net) && StaticRun(crypto, net, steps)
    requires CIDRSteps(steps)
    requires Ready(Clocks(net), Exec(crypto, net, steps), u) && NoCapture(Exec(crypto, net, steps), u)
    requires BehindForAll(Exec(crypto, net, steps), u, a, {c})
    requires NoneElseCaptures(Exec(crypto, net, steps), u, a, {c})
    requires u in net.nodes && Dist(SessionGraph(net), u, c) < MaxCost && !Fwd.IsMulticast(a)
    ensures w.v == u && End(w) == c && Simple(w)
    ensures IsWalk(SessionGraph(net), w) && Cost(SessionGraph(net), w) == Dist(SessionGraph(net), u, c)
    ensures forall p: Fwd.Packet :: p.dst == a ==>
              (Travels(Exec(crypto, net, steps), p, w, Outside) <==> p.hopLimit >= Links(w) + 2)
  {
    var end := Exec(crypto, net, steps);
    RunSettles(crypto, net, steps, u);
    RunKeepsNodes(crypto, net, steps);
    JoinedSelf(end, u);
    w := SettledLeavesAtSole(Clocks(net), end, u, u, a, c);
    forall p: Fwd.Packet | p.dst == a ensures Travels(end, p, w, Outside) <==> p.hopLimit >= Links(w) + 2 {
      TravelsExactly(end, p, w, Outside);
    }
  }

  /** The exact condition over the same runs. */
  lemma QuiescentNetworkDeliversExactly(crypto: Crypto, net: Net, steps: seq<Step>, u: IP)
    requires Authentic(net) && RoutersSound(net) && Symmetric(net) && StaticRun(crypto, net, steps)
    requires CIDRSteps(steps)
    requires Ready(Clocks(net), Exec(crypto, net, steps), u)
    requires Affordable(Exec(crypto, net, steps), u) && NoneMulticast(net.nodes.Keys)
    ensures AlwaysServed(crypto, Exec(crypto, net, steps), u) <==> Unhindered(Exec(crypto, net, steps), u)
  {
    RunSettles(crypto, net, steps, u);
    RunKeepsNodes(crypto, net, steps);
    DeliveryExactly(crypto, Clocks(net), Exec(crypto, net, steps), u);
  }

  /** In a network without restarts only nodes within reach are known. */
  lemma CleanKnowsReach(net: Net, u: IP)
    requires Authentic(net) && Symmetric(net) && KnownIsJoined(net)
    ensures OnlyReachKnown(net, u)
  {
    forall v, y | v in Reach(net, u) && y in DatabaseOf(net, v) ensures y in Reach(net, u) {
      assert AuthenticNode(net, v, net.nodes[v]);
      assert Holds(net.nodes[v], y);
      HeldIsBounded(net, v, y);
      SymmetricJoined(net, y, v);
      JoinedTransitive(net, u, v, y);
    }
  }

  /** From the start, with the exact condition: among nodes that were started on symmetric
      sessions, all packets are delivered in the end if and only if no external route contains
      another node's address. */
  lemma FreshNetworkDeliversExactly(crypto: Crypto, net: Net, steps: seq<Step>, u: IP)
    requires Fresh(net) && RoutersSound(net) && Symmetric(net) && StaticRun(crypto, net, steps)
    requires CIDRSteps(steps)
    requires Ready(Clocks(net), Exec(crypto, net, steps), u)
    requires Affordable(Exec(crypto, net, steps), u) && NoneMulticast(net.nodes.Keys)
    ensures AllServed(Exec(crypto, net, steps), u) <==> NoneCaptured(Exec(crypto, net, steps), u)
  {
    FreshIsClean(net);
    RunSettles(crypto, net, steps, u);
    StaticRunStaysClean(crypto, net, steps);
    RunKeepsNodes(crypto, net, steps);
    CleanKnowsReach(Exec(crypto, net, steps), u);
    DeliveryAmongKnown(Clocks(net), Exec(crypto, net, steps), u);
  }
}
