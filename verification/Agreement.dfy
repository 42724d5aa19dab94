/** What the flood achieves once sessions, whatever happened before, stay as they are and nothing
    is lost or pruned: when nothing is in flight, every node holds the latest announcement of every
    node that has announced itself since and that sessions join to it. */
module Agreement {
  import opened Address
  import opened Graph
  import opened Node
  import opened Flood

  /** Steps that keep sessions, packets and knowledge: no loss, pruning, restart or session
      change. */
  predicate Static(step: Step) {
    !step.Drop? && !step.Prune? && !step.Restart? && !step.SessionUp? && !step.SessionDown?
  }

  ghost predicate StaticRun(crypto: Crypto, net: Net, steps: seq<Step>) {
    IsRun(crypto, net, steps) && forall i :: 0 <= i < |steps| ==> Static(steps[i])
  }

  predicate AtLeast(s: Node, o: IP, v: Version) {
    Holds(s, o) && !Newer(v, HeldVersion(s, o))
  }

  /** An update about o, at least as new as v, is on its way to m. */
  ghost predicate OnTheWay(net: Net, m: IP, o: IP, v: Version) {
    exists p :: p in net.inflight && Brings(p, m, o, v)
  }

  predicate Brings(p: Packet, m: IP, o: IP, v: Version) {
    p.dst == m && p.update.origin == o && !Newer(v, p.update.version)
  }

  /** The clocks of all nodes, taken when sessions stopped changing. */
  function Clocks(net: Net): map<IP, Version> {
    map n | n in net.nodes :: Clock(net.nodes[n])
  }

  /** Version v of o is newer than what o had announced by then. */
  predicate Since(base: map<IP, Version>, o: IP, v: Version) {
    o in base && Newer(v, base[o])
  }

  /** What n has learned about o since then its neighbour m holds too, or is about to get. */
  ghost predicate CoveredAt(base: map<IP, Version>, net: Net, n: IP, m: IP, o: IP)
    requires n in net.nodes && m in net.nodes
  {
    Holds(net.nodes[n], o) && Since(base, o, HeldVersion(net.nodes[n], o)) ==>
      || AtLeast(net.nodes[m], o, HeldVersion(net.nodes[n], o))
      || OnTheWay(net, m, o, HeldVersion(net.nodes[n], o))
  }

  predicate Neighbour(net: Net, n: IP, m: IP) {
    n in net.nodes && m in net.nodes && m in net.nodes[n].sessions
  }

  ghost predicate Covered(base: map<IP, Version>, net: Net) {
    forall n, m, o :: Neighbour(net, n, m) && o != m ==> CoveredAt(base, net, n, m, o)
  }

  ghost predicate SenderHolds(net: Net, p: Packet) {
    Neighbour(net, p.src, p.dst) && AtLeast(net.nodes[p.src], p.update.origin, p.update.version)
  }

  ghost predicate SendersHold(base: map<IP, Version>, net: Net) {
    forall p :: p in net.inflight && Since(base, p.update.origin, p.update.version) ==> SenderHolds(net, p)
  }

  // ----- one step ------------------------------------------------------------------------

  lemma StaticKeepsSessions(crypto: Crypto, s: Node, step: Step)
    requires Static(step)
    ensures NodeAfter(crypto, s, step).sessions == s.sessions
  {
  }

  /** On a static run nothing held is lost. */
  lemma StaticKeepsHeld(crypto: Crypto, net: Net, step: Step, n: IP, o: IP, v: Version)
    requires Authentic(net) && Enabled(net, step) && Static(step)
    requires n in net.nodes && AtLeast(net.nodes[n], o, v)
    ensures AtLeast(Apply(crypto, net, step).nodes[n], o, v)
  {
    assert AuthenticNode(net, n, net.nodes[n]);
    if n == Actor(step) {
      StepNeverGoesBack(crypto, net.nodes[n], step, o);
    }
  }

  lemma StaticKeepsNeighbours(crypto: Crypto, net: Net, step: Step, n: IP, m: IP)
    requires Enabled(net, step) && Static(step)
    ensures Neighbour(Apply(crypto, net, step), n, m) <==> Neighbour(net, n, m)
  {
    StaticKeepsSessions(crypto, net.nodes[Actor(step)], step);
  }

  lemma SentByHolder(crypto: Crypto, net: Net, step: Step, p: Packet)
    requires Authentic(net) && Enabled(net, step) && Static(step) && !step.Duplicate?
    requires p in Sent(net.nodes[Actor(step)], step)
    ensures p.src == Actor(step) && p.dst in net.nodes[p.src].sessions && p.dst in net.nodes
    ensures AtLeast(Apply(crypto, net, step).nodes[p.src], p.update.origin, p.update.version)
  {
    assert AuthenticNode(net, Actor(step), net.nodes[Actor(step)]);
  }

  lemma StepKeepsSenders(crypto: Crypto, base: map<IP, Version>, net: Net, step: Step)
    requires Authentic(net) && SendersHold(base, net) && Enabled(net, step) && Static(step)
    ensures SendersHold(base, Apply(crypto, net, step))
  {
    var next := Apply(crypto, net, step);
    forall p | p in next.inflight && Since(base, p.update.origin, p.update.version) ensures SenderHolds(next, p) {
      if p in net.inflight {
        StaticKeepsHeld(crypto, net, step, p.src, p.update.origin, p.update.version);
      } else {
        SentByHolder(crypto, net, step, p);
      }
      StaticKeepsNeighbours(crypto, net, step, p.src, p.dst);
    }
  }

  /** After a delivery the receiver holds at least the delivered version: it accepted it, or
      the packet was stale. */
  lemma DeliveredIsHeld(crypto: Crypto, s: Node, u: Update, stored: bool)
    requires GoodNode(s) && GoodUpdate(u) && u.origin != s.addr
    ensures AtLeast(AfterUpdate(crypto, s, u, stored), u.origin, u.version)
  {
  }

  lemma OnTheWayOrArrived(crypto: Crypto, net: Net, step: Step, m: IP, o: IP, v: Version)
    requires Authentic(net) && Enabled(net, step) && Static(step)
    requires m in net.nodes && o != m && OnTheWay(net, m, o, v)
    ensures OnTheWay(Apply(crypto, net, step), m, o, v) || AtLeast(Apply(crypto, net, step).nodes[m], o, v)
  {
    var p :| p in net.inflight && Brings(p, m, o, v);
    if step.Deliver? && step.packet == p {
      assert AuthenticNode(net, m, net.nodes[m]);
      DeliveredIsHeld(crypto, net.nodes[m], p.update, step.stored);
    } else {
      assert p in Apply(crypto, net, step).inflight;
    }
  }

  /** The acting node has learned something new about o. */
  predicate Learns(s: Node, step: Step, o: IP) {
    (step.Originate? && o == s.addr) ||
      (step.Deliver? && Accepts(s, step.packet.update) && o == step.packet.update.origin)
  }

  lemma UnlearnedIsUnchanged(crypto: Crypto, s: Node, step: Step, o: IP)
    requires GoodNode(s) && Static(step) && !Learns(s, step, o)
    ensures var t := NodeAfter(crypto, s, step);
            t.addr == s.addr && (Holds(t, o) <==> Holds(s, o)) &&
              (Holds(s, o) ==> HeldVersion(t, o) == HeldVersion(s, o))
  {
  }

  lemma LearnedIsCovered(crypto: Crypto, base: map<IP, Version>, net: Net, step: Step, m: IP, o: IP)
    requires Authentic(net) && SendersHold(base, net) && Enabled(net, step) && Static(step)
    requires Neighbour(net, Actor(step), m) && o != m && Learns(net.nodes[Actor(step)], step, o)
    ensures CoveredAt(base, Apply(crypto, net, step), Actor(step), m, o)
  {
    var n := Actor(step);
    var s := net.nodes[n];
    var next := Apply(crypto, net, step);
    assert AuthenticNode(net, n, s);
    var u := if step.Originate? then GenerateUpdate(s, step.conns) else step.packet.update;
    assert HeldVersion(next.nodes[n], o) == u.version && u.origin == o;
    if step.Deliver? && m == step.packet.src {
      if Since(base, o, u.version) {
        StaticKeepsHeld(crypto, net, step, m, o, u.version);
      }
    } else {
      var p := Packet(n, m, u);
      assert p in Sent(s, step);
      assert p in next.inflight && Brings(p, m, o, u.version);
    }
  }

  lemma UnlearnedIsCovered(crypto: Crypto, base: map<IP, Version>, net: Net, step: Step, n: IP, m: IP, o: IP)
    requires Authentic(net) && Covered(base, net) && Enabled(net, step) && Static(step)
    requires Neighbour(net, n, m) && o != m && !(n == Actor(step) && Learns(net.nodes[n], step, o))
    ensures CoveredAt(base, Apply(crypto, net, step), n, m, o)
  {
    var next := Apply(crypto, net, step);
    assert AuthenticNode(net, n, net.nodes[n]);
    if n == Actor(step) {
      UnlearnedIsUnchanged(crypto, net.nodes[n], step, o);
    }
    assert CoveredAt(base, net, n, m, o);
    if Holds(net.nodes[n], o) && Since(base, o, HeldVersion(net.nodes[n], o)) {
      var v := HeldVersion(net.nodes[n], o);
      if AtLeast(net.nodes[m], o, v) {
        StaticKeepsHeld(crypto, net, step, m, o, v);
      } else {
        OnTheWayOrArrived(crypto, net, step, m, o, v);
      }
    }
  }

  lemma StepKeepsCovered(crypto: Crypto, base: map<IP, Version>, net: Net, step: Step)
    requires Authentic(net) && SendersHold(base, net) && Covered(base, net) && Enabled(net, step) && Static(step)
    ensures Covered(base, Apply(crypto, net, step))
  {
    var next := Apply(crypto, net, step);
    forall n, m, o | Neighbour(next, n, m) && o != m ensures CoveredAt(base, next, n, m, o) {
      StaticKeepsNeighbours(crypto, net, step, n, m);
      if n == Actor(step) && Learns(net.nodes[n], step, o) {
        LearnedIsCovered(crypto, base, net, step, m, o);
      } else {
        UnlearnedIsCovered(crypto, base, net, step, n, m, o);
      }
    }
  }

  // ----- quiescence ----------------------------------------------------------------------

  function SessionGraph(net: Net): Graph<IP> {
    map n | n in net.nodes :: net.nodes[n].sessions
  }

  ghost predicate Joined(net: Net, a: IP, b: IP) {
    exists w :: Joins(SessionGraph(net), w, a, b)
  }

  /** The nodes that sessions lead to from u. */
  ghost function Reach(net: Net, u: IP): set<IP> {
    set x | x in net.nodes && Joined(net, u, x)
  }

  /** No update is on its way to a node within reach of u. */
  ghost predicate Drained(net: Net, u: IP) {
    forall p :: p in net.inflight ==> p.dst !in Reach(net, u)
  }

  ghost predicate Symmetric(net: Net) {
    forall n, m :: Neighbour(net, n, m) ==> Neighbour(net, m, n)
  }

  /** Nothing is known about nodes from which no chain of sessions leads here. */
  ghost predicate KnownIsJoined(net: Net) {
    && (forall n, o :: n in net.nodes && Holds(net.nodes[n], o) ==> Joined(net, o, n))
    && (forall p :: p in net.inflight ==> Joined(net, p.update.origin, p.dst))
  }

  lemma JoinedSelf(net: Net, a: IP)
    ensures Joined(net, a, a)
  {
    assert Joins(SessionGraph(net), At(a), a, a);
  }

  lemma JoinedTransitive(net: Net, a: IP, b: IP, c: IP)
    requires Joined(net, a, b) && Joined(net, b, c)
    ensures Joined(net, a, c)
  {
    var w :| Joins(SessionGraph(net), w, a, b);
    var t :| Joins(SessionGraph(net), t, b, c);
    AppendWalk(SessionGraph(net), w, t);
  }

  lemma JoinedNeighbour(net: Net, a: IP, b: IP)
    requires Neighbour(net, a, b)
    ensures Joined(net, a, b)
  {
    var g := SessionGraph(net);
    var last := At(b);
    var w := Via(a, last);
    assert End(last) == b && IsWalk(g, last);
    assert End(w) == End(last) && IsWalk(g, w);
    assert Joins(g, w, a, b);
  }

  lemma StaticKeepsGraph(crypto: Crypto, net: Net, step: Step)
    requires Enabled(net, step) && Static(step)
    ensures SessionGraph(Apply(crypto, net, step)) == SessionGraph(net)
  {
    StaticKeepsSessions(crypto, net.nodes[Actor(step)], step);
  }

  lemma HeldStaysJoined(crypto: Crypto, net: Net, step: Step, n: IP, o: IP)
    requires Authentic(net) && KnownIsJoined(net) && Enabled(net, step) && Static(step)
    requires n in net.nodes && Holds(Apply(crypto, net, step).nodes[n], o)
    ensures Joined(net, o, n)
  {
    assert AuthenticNode(net, n, net.nodes[n]);
    JoinedSelf(net, n);
    if n == Actor(step) && !Learns(net.nodes[n], step, o) {
      UnlearnedIsUnchanged(crypto, net.nodes[n], step, o);
    }
  }

  lemma StepKeepsJoined(crypto: Crypto, net: Net, step: Step)
    requires Authentic(net) && KnownIsJoined(net) && Enabled(net, step) && Static(step)
    ensures KnownIsJoined(Apply(crypto, net, step))
  {
    var next := Apply(crypto, net, step);
    StaticKeepsGraph(crypto, net, step);
    forall n, o | n in next.nodes && Holds(next.nodes[n], o) ensures Joined(next, o, n) {
      HeldStaysJoined(crypto, net, step, n, o);
    }
    forall p | p in next.inflight ensures Joined(next, p.update.origin, p.dst) {
      if p !in net.inflight {
        SentByHolder(crypto, net, step, p);
        HeldStaysJoined(crypto, net, step, p.src, p.update.origin);
        JoinedNeighbour(net, p.src, p.dst);
        JoinedTransitive(net, p.update.origin, p.src, p.dst);
      }
    }
  }

  /** No node has restarted since it generated an update. */
  ghost predicate SameEpoch(net: Net) {
    forall u :: u in net.history ==> u.origin in net.nodes && u.version.epoch == net.nodes[u.origin].epoch
  }

  lemma StepKeepsEpoch(crypto: Crypto, net: Net, step: Step)
    requires Authentic(net) && SameEpoch(net) && Enabled(net, step) && Static(step)
    ensures SameEpoch(Apply(crypto, net, step))
  {
    assert AuthenticNode(net, Actor(step), net.nodes[Actor(step)]);
    StaticKeepsEpoch(crypto, net.nodes[Actor(step)], step);
  }

  lemma StaticKeepsEpoch(crypto: Crypto, s: Node, step: Step)
    requires Static(step)
    ensures NodeAfter(crypto, s, step).epoch == s.epoch
  {
  }

  /** The invariant of static runs from a state with these clocks. */
  ghost predicate Flowing(base: map<IP, Version>, net: Net) {
    && Authentic(net) && SendersHold(base, net) && Covered(base, net)
    && base.Keys == net.nodes.Keys && forall n :: n in base ==> base[n].epoch == net.nodes[n].epoch
  }

  /** Every state that can come about, after any restarts, losses and session changes, starts a
      static run: nothing has been announced since. */
  lemma AuthenticFlows(net: Net)
    requires Authentic(net)
    ensures Flowing(Clocks(net), net)
  {
    forall n, o | n in net.nodes && Holds(net.nodes[n], o)
      ensures !Since(Clocks(net), o, HeldVersion(net.nodes[n], o))
    {
      HeldIsBounded(net, n, o);
    }
  }

  lemma StepKeepsBase(crypto: Crypto, base: map<IP, Version>, net: Net, step: Step)
    requires Flowing(base, net) && Enabled(net, step) && Static(step)
    ensures base.Keys == Apply(crypto, net, step).nodes.Keys
    ensures forall n :: n in base ==> base[n].epoch == Apply(crypto, net, step).nodes[n].epoch
  {
    StaticKeepsEpoch(crypto, net.nodes[Actor(step)], step);
  }

  lemma {:induction false} StaticRunFlows(crypto: Crypto, base: map<IP, Version>, net: Net, steps: seq<Step>)
    requires Flowing(base, net) && StaticRun(crypto, net, steps)
    ensures Flowing(base, Exec(crypto, net, steps))
    ensures SessionGraph(Exec(crypto, net, steps)) == SessionGraph(net)
    decreases steps
  {
    if steps != [] {
      var next := Apply(crypto, net, steps[0]);
      StepKeepsAuthentic(crypto, net, steps[0]);
      StepKeepsBase(crypto, base, net, steps[0]);
      StepKeepsSenders(crypto, base, net, steps[0]);
      StepKeepsCovered(crypto, base, net, steps[0]);
      StaticKeepsGraph(crypto, net, steps[0]);
      StaticRunFlows(crypto, base, next, steps[1..]);
    }
  }

  /** No node has restarted, and nothing is known about nodes from which no sessions lead here. */
  ghost predicate Clean(net: Net) {
    SameEpoch(net) && KnownIsJoined(net)
  }

  lemma {:induction false} StaticRunStaysClean(crypto: Crypto, net: Net, steps: seq<Step>)
    requires Authentic(net) && Clean(net) && StaticRun(crypto, net, steps)
    ensures Clean(Exec(crypto, net, steps))
    decreases steps
  {
    if steps != [] {
      StepKeepsAuthentic(crypto, net, steps[0]);
      StepKeepsEpoch(crypto, net, steps[0]);
      StepKeepsJoined(crypto, net, steps[0]);
      StaticRunStaysClean(crypto, Apply(crypto, net, steps[0]), steps[1..]);
    }
  }

  /** Sessions may be there from the start; nothing has been generated yet. */
  ghost predicate Fresh(net: Net) {
    && net.inflight == multiset{} && net.history == {}
    && forall n :: n in net.nodes ==>
         var s := net.nodes[n];
         s.addr == n && GoodNode(s) && s.known == map[] && s.sequence == 0 && s.sessions.Keys <= net.nodes.Keys - {n}
  }

  lemma FreshIsClean(net: Net)
    requires Fresh(net)
    ensures Authentic(net) && Clean(net)
  {
    forall n | n in net.nodes ensures AuthenticNode(net, n, net.nodes[n]) {
    }
  }

  lemma NeighbourInReach(net: Net, u: IP, x: IP, y: IP)
    requires Authentic(net) && x in Reach(net, u) && y in net.nodes[x].sessions
    ensures y in Reach(net, u) && |y| == 16 && y != x
  {
    assert AuthenticNode(net, x, net.nodes[x]);
    JoinedNeighbour(net, x, y);
    JoinedTransitive(net, u, x, y);
  }

  lemma {:induction false} HeldAlongWalk(base: map<IP, Version>, net: Net, o: IP, w: Walk<IP>)
    requires Flowing(base, net) && Drained(net, o) && o in net.nodes && Since(base, o, Clock(net.nodes[o]))
    requires IsWalk(SessionGraph(net), w) && w.v in Reach(net, o) && AtLeast(net.nodes[w.v], o, Clock(net.nodes[o]))
    ensures End(w) in net.nodes && AtLeast(net.nodes[End(w)], o, Clock(net.nodes[o]))
  {
    if w.Via? {
      assert AuthenticNode(net, w.v, net.nodes[w.v]);
      assert Neighbour(net, w.v, w.rest.v);
      NeighbourInReach(net, o, w.v, w.rest.v);
      if w.rest.v == o {
        OriginHolds(base, net, o);
      } else {
        assert CoveredAt(base, net, w.v, w.rest.v, o);
      }
      HeldAlongWalk(base, net, o, w.rest);
    }
  }

  lemma OriginHolds(base: map<IP, Version>, net: Net, o: IP)
    requires Flowing(base, net) && o in net.nodes && Since(base, o, Clock(net.nodes[o]))
    ensures AtLeast(net.nodes[o], o, Clock(net.nodes[o])) && HeldVersion(net.nodes[o], o) == Clock(net.nodes[o])
  {
    assert AuthenticNode(net, o, net.nodes[o]);
  }

  /** Two holders of one version hold the same connections. */
  lemma SameVersionSameConns(net: Net, a: IP, b: IP, o: IP)
    requires Authentic(net) && a in net.nodes && b in net.nodes
    requires Holds(net.nodes[a], o) && Holds(net.nodes[b], o)
    requires HeldVersion(net.nodes[a], o) == HeldVersion(net.nodes[b], o)
    ensures o in net.nodes[a].router.nodes && o in net.nodes[b].router.nodes
    ensures net.nodes[a].router.nodes[o] == net.nodes[b].router.nodes[o]
  {
    assert AuthenticNode(net, a, net.nodes[a]) && AuthenticNode(net, b, net.nodes[b]);
    var u :| u in net.history && IsHeld(net.nodes[a], o, u);
    var v :| v in net.history && IsHeld(net.nodes[b], o, v);
  }

  lemma HeldIsBounded(net: Net, n: IP, o: IP)
    requires Authentic(net) && n in net.nodes && Holds(net.nodes[n], o)
    ensures o in net.nodes && !Newer(HeldVersion(net.nodes[n], o), Clock(net.nodes[o]))
  {
    assert AuthenticNode(net, n, net.nodes[n]);
    var u :| u in net.history && IsHeld(net.nodes[n], o, u);
  }

  /** Quiescence gives agreement: with nothing on its way to nodes within reach of o, a node holds
      the latest version, and exactly the latest connections, of o, if o has announced itself since
      sessions stopped changing and sessions lead from it to the node. */
  lemma QuiescentAgreement(base: map<IP, Version>, net: Net, n: IP, o: IP)
    requires Flowing(base, net) && Drained(net, o)
    requires n in net.nodes && o in net.nodes && Joined(net, o, n) && Since(base, o, Clock(net.nodes[o]))
    ensures n != o ==> o in net.nodes[n].known && net.nodes[n].known[o].version == Clock(net.nodes[o])
    ensures o in net.nodes[n].router.nodes && o in net.nodes[o].router.nodes
    ensures net.nodes[n].router.nodes[o] == net.nodes[o].router.nodes[o]
  {
    assert AuthenticNode(net, n, net.nodes[n]) && AuthenticNode(net, o, net.nodes[o]);
    var w :| Joins(SessionGraph(net), w, o, n);
    OriginHolds(base, net, o);
    JoinedSelf(net, o);
    HeldAlongWalk(base, net, o, w);
    HeldIsBounded(net, n, o);
    SameVersionSameConns(net, n, o, o);
  }

  lemma {:induction false} ReverseWalk(net: Net, w: Walk<IP>)
    requires Symmetric(net) && IsWalk(SessionGraph(net), w)
    requires forall n :: n in net.nodes ==> net.nodes[n].sessions.Keys <= net.nodes.Keys
    ensures Joined(net, End(w), w.v)
  {
    if w.Via? {
      ReverseWalk(net, w.rest);
      assert Neighbour(net, w.v, w.rest.v);
      JoinedNeighbour(net, w.rest.v, w.v);
      JoinedTransitive(net, End(w), w.rest.v, w.v);
    } else {
      JoinedSelf(net, w.v);
    }
  }

  lemma SymmetricJoined(net: Net, a: IP, b: IP)
    requires Authentic(net) && Symmetric(net) && Joined(net, a, b)
    ensures Joined(net, b, a)
  {
    forall n | n in net.nodes ensures net.nodes[n].sessions.Keys <= net.nodes.Keys {
      assert AuthenticNode(net, n, net.nodes[n]);
    }
    var w :| Joins(SessionGraph(net), w, a, b);
    ReverseWalk(net, w);
  }

  lemma DrainedFrom(net: Net, u: IP, x: IP)
    requires Drained(net, u) && Joined(net, u, x)
    ensures Drained(net, x)
  {
    forall p | p in net.inflight ensures p.dst !in Reach(net, x) {
      if p.dst in Reach(net, x) {
        JoinedTransitive(net, u, x, p.dst);
      }
    }
  }

  /** In a network without restarts whatever is held has been announced since the start. */
  lemma HeldIsAnnounced(base: map<IP, Version>, net: Net, n: IP, o: IP)
    requires Flowing(base, net) && Clean(net) && (forall x :: x in base ==> base[x].sequence == 0)
    requires n in net.nodes && Holds(net.nodes[n], o)
    ensures o in net.nodes && Since(base, o, Clock(net.nodes[o])) && Joined(net, o, n)
  {
    HeldIsBounded(net, n, o);
    assert AuthenticNode(net, n, net.nodes[n]);
    var u :| u in net.history && IsHeld(net.nodes[n], o, u);
  }

  /** What one end of a chain of sessions holds the other end holds as well. */
  lemma HeldIsShared(base: map<IP, Version>, net: Net, a: IP, b: IP, o: IP)
    requires Flowing(base, net) && Clean(net) && (forall x :: x in base ==> base[x].sequence == 0)
    requires Symmetric(net) && Drained(net, a) && a in net.nodes && b in net.nodes && Joined(net, a, b)
    requires o in net.nodes[a].router.nodes
    ensures o in net.nodes[b].router.nodes && net.nodes[b].router.nodes[o] == net.nodes[a].router.nodes[o]
  {
    assert AuthenticNode(net, a, net.nodes[a]);
    assert Holds(net.nodes[a], o);
    HeldIsAnnounced(base, net, a, o);
    SymmetricJoined(net, o, a);
    DrainedFrom(net, a, o);
    JoinedTransitive(net, o, a, b);
    QuiescentAgreement(base, net, a, o);
    QuiescentAgreement(base, net, b, o);
  }

  lemma EqualMaps<K, V>(m: map<K, V>, n: map<K, V>)
    requires forall k :: k in m ==> k in n && n[k] == m[k]
    requires forall k :: k in n ==> k in m && m[k] == n[k]
    ensures m == n
  {
  }

  /** Connected nodes hold identical databases once nothing is on its way to them, if no node has
      restarted since all of them started. */
  lemma IdenticalDatabases(base: map<IP, Version>, net: Net, a: IP, b: IP)
    requires Flowing(base, net) && Clean(net) && (forall x :: x in base ==> base[x].sequence == 0)
    requires Symmetric(net) && Drained(net, a)
    requires a in net.nodes && b in net.nodes && Joined(net, a, b)
    ensures net.nodes[a].router.nodes == net.nodes[b].router.nodes
  {
    SymmetricJoined(net, a, b);
    DrainedFrom(net, a, b);
    var m, n := net.nodes[a].router.nodes, net.nodes[b].router.nodes;
    forall o | o in m ensures o in n && n[o] == m[o] {
      HeldIsShared(base, net, a, b, o);
    }
    forall o | o in n ensures o in m && m[o] == n[o] {
      HeldIsShared(base, net, b, a, o);
    }
    EqualMaps(m, n);
  }

  /** Recovery, over whole runs: take any state that can come about, with symmetric sessions or
      not, and let the nodes run without loss, pruning, restarts or session changes.  When no update
      is on its way to a node within reach of o, every one of those holds exactly the latest
      announcement of o, by version and by content, if o has announced itself again. */
  lemma QuiescentRunRecovers(crypto: Crypto, net: Net, steps: seq<Step>, n: IP, o: IP)
    requires Authentic(net) && StaticRun(crypto, net, steps) && Drained(Exec(crypto, net, steps), o)
    requires n in net.nodes && o in net.nodes && Joined(net, o, n)
    requires o in Exec(crypto, net, steps).nodes && Newer(Clock(Exec(crypto, net, steps).nodes[o]), Clock(net.nodes[o]))
    ensures n in Exec(crypto, net, steps).nodes
    ensures var s, t := Exec(crypto, net, steps).nodes[n], Exec(crypto, net, steps).nodes[o];
            && (n != o ==> o in s.known && s.known[o].version == Clock(t))
            && o in s.router.nodes && o in t.router.nodes && s.router.nodes[o] == t.router.nodes[o]
  {
    AuthenticFlows(net);
    StaticRunFlows(crypto, Clocks(net), net, steps);
    RunKeepsNodes(crypto, net, steps);
    QuiescentAgreement(Clocks(net), Exec(crypto, net, steps), n, o);
  }

  /** From the start: on any symmetric session graph, connected nodes end up with identical
      databases, made of exactly the latest announcement of every connected node that has made
      one. */
  lemma QuiescentRunAgrees(crypto: Crypto, net: Net, steps: seq<Step>, a: IP, b: IP)
    requires Fresh(net) && Symmetric(net) && StaticRun(crypto, net, steps)
    requires Drained(Exec(crypto, net, steps), a)
    requires a in net.nodes && b in net.nodes && Joined(net, a, b)
    ensures var end := Exec(crypto, net, steps);
            && a in end.nodes && b in end.nodes && end.nodes[a].router.nodes == end.nodes[b].router.nodes
            && (b in end.nodes[a].router.nodes <==> end.nodes[b].sequence > 0)
            && (a != b && end.nodes[b].sequence > 0 ==>
                  b in end.nodes[a].known && end.nodes[a].known[b].version == Clock(end.nodes[b]))
  {
    var end := Exec(crypto, net, steps);
    FreshIsClean(net);
    AuthenticFlows(net);
    StaticRunFlows(crypto, Clocks(net), net, steps);
    StaticRunStaysClean(crypto, net, steps);
    RunKeepsNodes(crypto, net, steps);
    SameGraphSymmetric(net, end);
    IdenticalDatabases(Clocks(net), end, a, b);
    SymmetricJoined(end, a, b);
    DrainedFrom(end, a, b);
    assert AuthenticNode(end, b, end.nodes[b]);
    if end.nodes[b].sequence > 0 {
      QuiescentAgreement(Clocks(net), end, a, b);
    }
  }

  lemma SameReach(net: Net, end: Net, u: IP)
    requires SessionGraph(net) == SessionGraph(end) && net.nodes.Keys == end.nodes.Keys
    ensures Reach(net, u) == Reach(end, u)
  {
    forall x ensures Joined(net, u, x) <==> Joined(end, u, x) {
    }
  }

  lemma SameGraphSymmetric(net: Net, end: Net)
    requires Symmetric(net) && SessionGraph(net) == SessionGraph(end)
    ensures Symmetric(end)
  {
    forall n, m | Neighbour(end, n, m) ensures Neighbour(end, m, n) {
      assert n in SessionGraph(end) && m in SessionGraph(end);
      assert SessionGraph(net)[n] == SessionGraph(end)[n] && SessionGraph(net)[m] == SessionGraph(end)[m];
      assert Neighbour(net, n, m);
    }
  }
}
