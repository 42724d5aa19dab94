/** The flooding protocol as a transition system: all nodes, and the updates in flight between
    them.  Every send runs in its own goroutine, so the updates in flight are an unordered
    multiset.  One iteration of a node's reader, of its update sender or of its dead-node
    monitor is one step. */
module Flood {
  import opened Address
  import opened Optional
  import opened Routes
  import opened Node
  import Router

  datatype Packet = Packet(src: IP, dst: IP, update: Update)

  /** history is a record of every update ever generated; no operation reads it. */
  datatype Net = Net(nodes: map<IP, Node>, inflight: multiset<Packet>, history: set<Update>)

  /** floodRoutingUpdate: one packet to every session's peer but those excepted. */
  function Flooded(s: Node, except: set<IP>, u: Update): multiset<Packet> {
    multiset(set m | m in s.sessions && m !in except :: Packet(s.addr, m, u))
  }

  datatype Step =
    | Originate(n: IP, conns: Conns)
    | Deliver(packet: Packet, stored: bool)
    | Drop(packet: Packet)
    | Duplicate(packet: Packet)
    | Prune(n: IP, dead: set<IP>)
    | Restart(n: IP, epoch: nat, config: Config)
    | SessionUp(n: IP, peer: IP, cost: int)
    | SessionDown(n: IP, peer: IP)
    | AddRoute(n: IP, name: string, dest: Subnet, cost: int)
    | DelRoute(n: IP, name: string)
    | Recalculate(n: IP, policy: Policy)
    | Operator(n: IP, data: Bytes, signature: Bytes, stored: bool)

  function Actor(step: Step): IP {
    if step.Deliver? || step.Drop? || step.Duplicate? then step.packet.dst else step.n
  }

  ghost predicate Enabled(net: Net, step: Step) {
    && Actor(step) in net.nodes
    && var s := net.nodes[Actor(step)];
       match step
       case Originate(_, conns) => Announces(s, conns)
       case Deliver(p, _) => p in net.inflight
       case Drop(p) => p in net.inflight
       case Duplicate(p) => p in net.inflight
       case Restart(_, epoch, _) => epoch > s.epoch
       case SessionUp(n, peer, _) => peer in net.nodes && peer != n
       case Recalculate(n, policy) => Router.Possible(n, s.router, Router.Recalculated(policy))
       case _ => true
  }

  /** The acting node's next state. */
  ghost function NodeAfter(crypto: Crypto, s: Node, step: Step): Node {
    match step
    case Originate(_, conns) => AfterOriginate(s, conns)
    case Deliver(p, stored) => AfterUpdate(crypto, s, p.update, stored)
    case Drop(_) => s
    case Duplicate(_) => s
    case Prune(_, dead) => AfterPrune(s, dead)
    case Restart(_, epoch, config) => Start(s.addr, epoch, s.keys, s.takesConfigs, config)
    case SessionUp(_, peer, cost) => AfterSession(s, peer, cost)
    case SessionDown(_, peer) => s.(sessions := s.sessions - {peer})
    case AddRoute(_, name, dest, cost) => AfterAddRoute(s, name, dest, cost)
    case DelRoute(_, name) => s.(routes := s.routes - {name})
    case Recalculate(_, policy) => s.(router := Router.After(s.router, Router.Recalculated(policy)))
    case Operator(_, data, signature, stored) => AfterNewConfig(crypto, s, data, signature, stored)
  }

  function Taken(step: Step): multiset<Packet> {
    if step.Deliver? || step.Drop? then multiset{step.packet} else multiset{}
  }

  function Sent(s: Node, step: Step): multiset<Packet> {
    match step
    case Originate(_, conns) => Flooded(s, {}, GenerateUpdate(s, conns))
    case Deliver(p, _) => if Accepts(s, p.update) then Flooded(s, {p.src}, p.update) else multiset{}
    case Duplicate(p) => multiset{p}
    case _ => multiset{}
  }

  function Logged(s: Node, step: Step): set<Update> {
    if step.Originate? then {GenerateUpdate(s, step.conns)} else {}
  }

  ghost function Apply(crypto: Crypto, net: Net, step: Step): Net
    requires Enabled(net, step)
  {
    var s := net.nodes[Actor(step)];
    Net(net.nodes[Actor(step) := NodeAfter(crypto, s, step)],
        net.inflight - Taken(step) + Sent(s, step),
        net.history + Logged(s, step))
  }

  ghost predicate IsRun(crypto: Crypto, net: Net, steps: seq<Step>)
    decreases steps
  {
    steps == [] || (Enabled(net, steps[0]) && IsRun(crypto, Apply(crypto, net, steps[0]), steps[1..]))
  }

  ghost function Exec(crypto: Crypto, net: Net, steps: seq<Step>): Net
    requires IsRun(crypto, net, steps)
    decreases steps
  {
    if steps == [] then net else Exec(crypto, Apply(crypto, net, steps[0]), steps[1..])
  }

  /** Nodes that have just been started, with their addresses as keys and nothing in flight. */
  ghost predicate Init(net: Net) {
    && net.inflight == multiset{} && net.history == {}
    && forall n :: n in net.nodes ==>
         var s := net.nodes[n];
         |n| == 16 && s == Start(n, s.epoch, s.keys, s.takesConfigs, s.config)
  }

  // ----- what a step does to the network -------------------------------------------------

  /** An update goes, once, to exactly the sessions that the step calls for: to all of them when it
      is generated, to all but the sender when it is accepted, and nowhere when it is refused. */
  lemma SentExactly(s: Node, step: Step, q: Packet)
    ensures step.Originate? ==>
              Sent(s, step)[q] == if q.src == s.addr && q.dst in s.sessions && q.update == GenerateUpdate(s, step.conns)
                                  then 1 else 0
    ensures step.Deliver? ==>
              Sent(s, step)[q] == if && Accepts(s, step.packet.update) && q.src == s.addr && q.dst in s.sessions
                                     && q.dst != step.packet.src && q.update == step.packet.update
                                  then 1 else 0
  {
    if step.Originate? {
      FloodedOnce(s, {}, GenerateUpdate(s, step.conns), q);
    } else if step.Deliver? {
      FloodedOnce(s, {step.packet.src}, step.packet.update, q);
    }
  }

  lemma FloodedOnce(s: Node, except: set<IP>, u: Update, q: Packet)
    ensures Flooded(s, except, u)[q]
            == if q.src == s.addr && q.dst in s.sessions && q.dst !in except && q.update == u then 1 else 0
  {
    var packets := set m | m in s.sessions && m !in except :: Packet(s.addr, m, u);
    if q.src == s.addr && q.dst in s.sessions && q.dst !in except && q.update == u {
      assert q == Packet(s.addr, q.dst, u);
      assert q in packets;
    } else {
      assert q !in packets;
    }
  }

  /** A dropped packet is gone once, a duplicated one there once more. */
  lemma LossAndCopies(crypto: Crypto, net: Net, step: Step)
    requires Enabled(net, step) && (step.Drop? || step.Duplicate?)
    ensures var next := Apply(crypto, net, step);
            && next.inflight[step.packet] == net.inflight[step.packet] + (if step.Drop? then -1 else 1)
            && (forall q :: q != step.packet ==> next.inflight[q] == net.inflight[q])
            && next.nodes == net.nodes && next.history == net.history
  {
  }

  /** Sessions and routes come and go as the steps say, at the costs the steps say, and by no other
      step but a restart. */
  lemma SessionsAndRoutes(crypto: Crypto, s: Node, step: Step)
    ensures var t := NodeAfter(crypto, s, step);
            match step
            case SessionUp(_, peer, cost) =>
              && (forall m :: m in t.sessions <==> m in s.sessions || m == peer)
              && t.sessions[peer] == (if cost > 0 then cost else UnitCost) && t.routes == s.routes
              && (forall m :: m in s.sessions && m != peer ==> t.sessions[m] == s.sessions[m])
            case SessionDown(_, peer) =>
              && (forall m :: m in t.sessions <==> m in s.sessions && m != peer) && t.routes == s.routes
              && (forall m :: m in t.sessions ==> t.sessions[m] == s.sessions[m])
            case AddRoute(_, name, dest, cost) =>
              t.sessions == s.sessions && t.routes == s.routes[name := Route(dest, if cost > 0 then cost else UnitCost)]
            case DelRoute(_, name) =>
              && t.sessions == s.sessions && (forall r :: r in t.routes <==> r in s.routes && r != name)
              && (forall r :: r in t.routes ==> t.routes[r] == s.routes[r])
            case Restart(_, _, _) => t.sessions == map[] && t.routes == map[]
            case _ => t.sessions == s.sessions && t.routes == s.routes
  {
  }

  /** After pruning, a dead node's address is neither known nor in the router's database, and the
      node is learned again from any of its updates, even the one that was forgotten. */
  lemma PrunedIsGone(crypto: Crypto, net: Net, n: IP, dead: set<IP>, o: IP, u: Update)
    requires Authentic(net) && n in net.nodes && o in dead && o != n && u.origin == o && GoodUpdate(u)
    ensures var s := Apply(crypto, net, Prune(n, dead)).nodes[n];
            !Holds(s, o) && o !in s.router.nodes && Accepts(s, u)
  {
    assert AuthenticNode(net, n, net.nodes[n]);
    PruneExactly(net.nodes[n], dead);
  }

  // ----- safety --------------------------------------------------------------------------

  /** The version a node holds of an origin: its own clock, or what it has accepted. */
  function HeldVersion(s: Node, o: IP): Version
    requires o == s.addr || o in s.known
  {
    if o == s.addr then Clock(s) else s.known[o].version
  }

  predicate Holds(s: Node, o: IP) {
    (o == s.addr && s.sequence > 0) || o in s.known
  }

  /** What the node stores about o is the content of one generated update. */
  ghost predicate Witnessed(history: set<Update>, s: Node, o: IP) {
    exists u :: u in history && IsHeld(s, o, u)
  }

  predicate IsHeld(s: Node, o: IP, u: Update) {
    && Holds(s, o)
    && u.origin == o && u.version == HeldVersion(s, o)
    && o in s.router.nodes && s.router.nodes[o] == u.conns
    && (o != s.addr ==> s.known[o].configVersion == u.configVersion)
  }

  ghost predicate AuthenticNode(net: Net, n: IP, s: Node) {
    && s.addr == n && GoodNode(s)
    && s.sessions.Keys <= net.nodes.Keys - {n}
    && forall o :: Holds(s, o) ==> Witnessed(net.history, s, o)
  }

  ghost predicate AuthenticHistory(net: Net) {
    && (forall u :: u in net.history ==>
          GoodUpdate(u) && u.origin in net.nodes && !Newer(u.version, Clock(net.nodes[u.origin])))
    && (forall u, v :: u in net.history && v in net.history && u.origin == v.origin && u.version == v.version ==>
          u == v)
  }

  ghost predicate Authentic(net: Net) {
    && AuthenticHistory(net)
    && (forall p :: p in net.inflight ==> p.update in net.history && p.dst in net.nodes)
    && (forall n :: n in net.nodes ==> AuthenticNode(net, n, net.nodes[n]))
  }

  lemma InitIsAuthentic(net: Net)
    requires Init(net)
    ensures Authentic(net)
  {
  }

  lemma StartIsGood(addr: IP, epoch: nat, keys: Option<seq<Key>>, takesConfigs: bool, config: Config)
    requires |addr| == 16
    ensures GoodNode(Start(addr, epoch, keys, takesConfigs, config))
  {
  }

  /** What a step asks of the acting node alone. */
  ghost predicate LocallyEnabled(s: Node, step: Step) {
    match step
    case Restart(_, epoch, _) => epoch > s.epoch
    case SessionUp(_, peer, _) => |peer| == 16
    case _ => true
  }

  /** A step keeps the acting node's address and invariant, and its clock never goes back. */
  lemma StepKeepsGood(crypto: Crypto, s: Node, step: Step)
    requires GoodNode(s) && LocallyEnabled(s, step)
    ensures NodeAfter(crypto, s, step).addr == s.addr && GoodNode(NodeAfter(crypto, s, step))
    ensures !Newer(Clock(s), Clock(NodeAfter(crypto, s, step)))
  {
    match step
    case Originate(_, conns) => OriginateKeepsGood(s, conns);
    case Deliver(p, stored) => AcceptKeepsGood(crypto, s, p.update, stored);
    case Prune(_, dead) => PruneKeepsGood(s, dead);
    case Restart(_, epoch, config) => StartIsGood(s.addr, epoch, s.keys, s.takesConfigs, config);
    case SessionUp(_, peer, cost) => SessionKeepsGood(s, peer, cost);
    case AddRoute(_, name, dest, cost) => AddRouteKeepsGood(s, name, dest, cost);
    case _ =>
  }

  lemma ActorStaysGood(crypto: Crypto, net: Net, step: Step)
    requires Authentic(net) && Enabled(net, step)
    ensures var s := net.nodes[Actor(step)]; var t := NodeAfter(crypto, s, step);
            t.addr == s.addr && GoodNode(t) && !Newer(Clock(s), Clock(t))
  {
    var s := net.nodes[Actor(step)];
    assert AuthenticNode(net, Actor(step), s);
    if step.SessionUp? {
      assert AuthenticNode(net, step.peer, net.nodes[step.peer]);
    }
    assert LocallyEnabled(s, step);
    StepKeepsGood(crypto, s, step);
  }

  lemma StepSessions(crypto: Crypto, s: Node, step: Step)
    ensures NodeAfter(crypto, s, step).sessions.Keys <= s.sessions.Keys + (if step.SessionUp? then {step.peer} else {})
  {
  }

  lemma ActorSessions(crypto: Crypto, net: Net, step: Step)
    requires Authentic(net) && Enabled(net, step)
    ensures NodeAfter(crypto, net.nodes[Actor(step)], step).sessions.Keys <= net.nodes.Keys - {Actor(step)}
  {
    assert AuthenticNode(net, Actor(step), net.nodes[Actor(step)]);
    StepSessions(crypto, net.nodes[Actor(step)], step);
  }

  lemma HeldStaysWitnessed(history: set<Update>, more: set<Update>, s: Node, t: Node, o: IP)
    requires Holds(s, o) && Witnessed(history, s, o) && history <= more
    requires Holds(t, o) && t.addr == s.addr && HeldVersion(t, o) == HeldVersion(s, o)
    requires o in t.router.nodes && (o in s.router.nodes ==> t.router.nodes[o] == s.router.nodes[o])
    requires o != s.addr ==> t.known[o] == s.known[o]
    ensures Witnessed(more, t, o)
  {
    var u :| u in history && IsHeld(s, o, u);
    assert IsHeld(t, o, u);
  }

  lemma OriginateWitnessed(net: Net, n: IP, conns: Conns, o: IP)
    requires Authentic(net) && n in net.nodes && Holds(AfterOriginate(net.nodes[n], conns), o)
    ensures Witnessed(net.history + {GenerateUpdate(net.nodes[n], conns)}, AfterOriginate(net.nodes[n], conns), o)
  {
    var s := net.nodes[n];
    var t := AfterOriginate(s, conns);
    var u := GenerateUpdate(s, conns);
    assert AuthenticNode(net, n, s);
    OriginateKeepsGood(s, conns);
    if o == n {
      assert IsHeld(t, o, u);
    } else {
      HeldStaysWitnessed(net.history, net.history + {u}, s, t, o);
    }
  }

  lemma DeliverWitnessed(crypto: Crypto, net: Net, p: Packet, stored: bool, o: IP)
    requires Authentic(net) && p in net.inflight && Holds(AfterUpdate(crypto, net.nodes[p.dst], p.update, stored), o)
    ensures Witnessed(net.history, AfterUpdate(crypto, net.nodes[p.dst], p.update, stored), o)
  {
    var s := net.nodes[p.dst];
    var t := AfterUpdate(crypto, s, p.update, stored);
    assert AuthenticNode(net, p.dst, s);
    AcceptKeepsGood(crypto, s, p.update, stored);
    if Accepts(s, p.update) && o == p.update.origin {
      assert IsHeld(t, o, p.update);
    } else {
      HeldStaysWitnessed(net.history, net.history, s, t, o);
    }
  }

  lemma ActorWitnessed(crypto: Crypto, net: Net, step: Step, o: IP)
    requires Authentic(net) && Enabled(net, step)
    requires Holds(NodeAfter(crypto, net.nodes[Actor(step)], step), o)
    ensures Witnessed(net.history + Logged(net.nodes[Actor(step)], step),
                      NodeAfter(crypto, net.nodes[Actor(step)], step), o)
  {
    var s := net.nodes[Actor(step)];
    assert AuthenticNode(net, Actor(step), s);
    if step.Originate? {
      OriginateWitnessed(net, step.n, step.conns, o);
    } else if step.Deliver? {
      DeliverWitnessed(crypto, net, step.packet, step.stored, o);
    } else {
      OtherStepsForget(crypto, s, step, o);
      HeldStaysWitnessed(net.history, net.history, s, NodeAfter(crypto, s, step), o);
    }
  }

  /** Steps other than originating and delivering only forget. */
  lemma OtherStepsForget(crypto: Crypto, s: Node, step: Step, o: IP)
    requires GoodNode(s) && !step.Originate? && !step.Deliver?
    requires Holds(NodeAfter(crypto, s, step), o)
    ensures var t := NodeAfter(crypto, s, step);
            Holds(s, o) && t.addr == s.addr && HeldVersion(t, o) == HeldVersion(s, o)
            && o in s.router.nodes && o in t.router.nodes && t.router.nodes[o] == s.router.nodes[o]
            && (o != s.addr ==> t.known[o] == s.known[o])
  {
    if step.Prune? {
      PruneForgets(s, step.dead, o);
    } else if !step.Restart? {
      OtherStepsKeepKnowledge(crypto, s, step);
    }
  }

  lemma OtherStepsKeepKnowledge(crypto: Crypto, s: Node, step: Step)
    requires !step.Originate? && !step.Deliver? && !step.Prune? && !step.Restart?
    ensures var t := NodeAfter(crypto, s, step);
            t.addr == s.addr && t.epoch == s.epoch && t.sequence == s.sequence && t.known == s.known &&
              t.router.nodes == s.router.nodes
  {
  }

  lemma PruneForgets(s: Node, dead: set<IP>, o: IP)
    requires GoodNode(s) && Holds(AfterPrune(s, dead), o)
    ensures Holds(s, o) && (o != s.addr ==> AfterPrune(s, dead).known[o] == s.known[o])
    ensures o in s.router.nodes && o in AfterPrune(s, dead).router.nodes
    ensures AfterPrune(s, dead).router.nodes[o] == s.router.nodes[o]
  {
  }

  lemma OldMember(crypto: Crypto, net: Net, step: Step, u: Update)
    requires Authentic(net) && Enabled(net, step) && u in net.history
    ensures GoodUpdate(u) && u.origin in net.nodes && !Newer(u.version, Clock(Apply(crypto, net, step).nodes[u.origin]))
  {
    ActorStaysGood(crypto, net, step);
  }

  lemma NewMember(crypto: Crypto, net: Net, step: Step)
    requires Authentic(net) && Enabled(net, step) && step.Originate?
    ensures var u := GenerateUpdate(net.nodes[step.n], step.conns);
            GoodUpdate(u) && u.origin == step.n && u.version == Clock(AfterOriginate(net.nodes[step.n], step.conns))
  {
    assert AuthenticNode(net, step.n, net.nodes[step.n]);
    GeneratedIsGood(net.nodes[step.n], step.conns);
  }

  lemma HistoryMember(crypto: Crypto, net: Net, step: Step, u: Update)
    requires Authentic(net) && Enabled(net, step) && u in Apply(crypto, net, step).history
    ensures GoodUpdate(u) && u.origin in net.nodes && !Newer(u.version, Clock(Apply(crypto, net, step).nodes[u.origin]))
  {
    if u in net.history {
      OldMember(crypto, net, step, u);
    } else {
      NewMember(crypto, net, step);
    }
  }

  /** A generated update has a version that its origin never used before. */
  lemma GeneratedIsUnused(net: Net, n: IP, conns: Conns)
    requires Authentic(net) && n in net.nodes
    ensures forall u :: u in net.history && u.origin == n ==>
            Newer(GenerateUpdate(net.nodes[n], conns).version, u.version)
    ensures GenerateUpdate(net.nodes[n], conns).origin == n
  {
    assert AuthenticNode(net, n, net.nodes[n]);
  }

  lemma HistoryStaysFunctional(crypto: Crypto, net: Net, step: Step, u: Update, v: Update)
    requires Authentic(net) && Enabled(net, step)
    requires u in net.history + Logged(net.nodes[Actor(step)], step)
    requires v in net.history + Logged(net.nodes[Actor(step)], step)
    requires u.origin == v.origin && u.version == v.version
    ensures u == v
  {
    if step.Originate? {
      GeneratedIsUnused(net, step.n, step.conns);
    }
  }

  lemma StepKeepsHistory(crypto: Crypto, net: Net, step: Step)
    requires Authentic(net) && Enabled(net, step)
    ensures AuthenticHistory(Apply(crypto, net, step))
  {
    var next := Apply(crypto, net, step);
    forall u | u in next.history
      ensures GoodUpdate(u) && u.origin in next.nodes && !Newer(u.version, Clock(next.nodes[u.origin]))
    {
      HistoryMember(crypto, net, step, u);
    }
    forall u, v | u in next.history && v in next.history && u.origin == v.origin && u.version == v.version
      ensures u == v
    {
      HistoryStaysFunctional(crypto, net, step, u, v);
    }
  }

  lemma OtherStaysAuthentic(net: Net, next: Net, n: IP)
    requires Authentic(net) && n in net.nodes && net.history <= next.history && net.nodes.Keys == next.nodes.Keys
    ensures AuthenticNode(next, n, net.nodes[n])
  {
    var s := net.nodes[n];
    assert AuthenticNode(net, n, s);
    forall o | Holds(s, o) ensures Witnessed(next.history, s, o) {
      var u :| u in net.history && IsHeld(s, o, u);
    }
  }

  lemma ActorStaysAuthentic(crypto: Crypto, net: Net, step: Step)
    requires Authentic(net) && Enabled(net, step)
    ensures AuthenticNode(Apply(crypto, net, step), Actor(step), NodeAfter(crypto, net.nodes[Actor(step)], step))
  {
    assert AuthenticNode(net, Actor(step), net.nodes[Actor(step)]);
    ActorStaysGood(crypto, net, step);
    ActorSessions(crypto, net, step);
    var t := NodeAfter(crypto, net.nodes[Actor(step)], step);
    assert Apply(crypto, net, step).nodes.Keys == net.nodes.Keys;
    forall o | Holds(t, o) ensures Witnessed(Apply(crypto, net, step).history, t, o) {
      ActorWitnessed(crypto, net, step, o);
    }
  }

  lemma PacketsStayAuthentic(crypto: Crypto, net: Net, step: Step)
    requires Authentic(net) && Enabled(net, step)
    ensures forall p :: p in Apply(crypto, net, step).inflight ==>
            p.update in Apply(crypto, net, step).history && p.dst in net.nodes
  {
    var s := net.nodes[Actor(step)];
    var next := Apply(crypto, net, step);
    assert AuthenticNode(net, Actor(step), s);
    forall p | p in next.inflight ensures p.update in next.history && p.dst in net.nodes {
      assert p in net.inflight || p in Sent(s, step);
    }
  }

  lemma NodesStayAuthentic(crypto: Crypto, net: Net, step: Step)
    requires Authentic(net) && Enabled(net, step)
    ensures forall n :: n in net.nodes ==> AuthenticNode(Apply(crypto, net, step), n, Apply(crypto, net, step).nodes[n])
  {
    var next := Apply(crypto, net, step);
    forall n | n in net.nodes ensures AuthenticNode(next, n, next.nodes[n]) {
      if n == Actor(step) {
        ActorStaysAuthentic(crypto, net, step);
      } else {
        OtherStaysAuthentic(net, next, n);
      }
    }
  }

  /** Every step of the full system, with loss, duplication, reordering, pruning, restarts and
      changing sessions, keeps the record authentic. */
  lemma StepKeepsAuthentic(crypto: Crypto, net: Net, step: Step)
    requires Authentic(net) && Enabled(net, step)
    ensures Authentic(Apply(crypto, net, step))
  {
    StepKeepsHistory(crypto, net, step);
    PacketsStayAuthentic(crypto, net, step);
    NodesStayAuthentic(crypto, net, step);
  }

  lemma {:induction false} RunKeepsAuthentic(crypto: Crypto, net: Net, steps: seq<Step>)
    requires Authentic(net) && IsRun(crypto, net, steps)
    ensures Authentic(Exec(crypto, net, steps))
    decreases steps
  {
    if steps != [] {
      StepKeepsAuthentic(crypto, net, steps[0]);
      RunKeepsAuthentic(crypto, Apply(crypto, net, steps[0]), steps[1..]);
    }
  }

  /** What a node stores is the content of updates that their origins generated with the
      stored versions, with positive costs, and the router's nodes besides the node itself
      are the known ones. */
  ghost predicate StoresGenerated(history: set<Update>, s: Node) {
    && s.router.nodes.Keys - {s.addr} == s.known.Keys
    && ValidDatabase(s.router.nodes)
    && forall o :: o in s.known ==> exists u :: u in history && IsContent(s, o, u)
  }

  predicate IsContent(s: Node, o: IP, u: Update) {
    && u.origin == o && o in s.known && o in s.router.nodes
    && u.version == s.known[o].version && u.conns == s.router.nodes[o] && u.configVersion == s.known[o].configVersion
  }

  lemma KnownIsContent(history: set<Update>, s: Node, o: IP)
    requires GoodNode(s) && o in s.known && Witnessed(history, s, o)
    ensures exists u :: u in history && IsContent(s, o, u)
  {
    var u :| u in history && IsHeld(s, o, u);
    assert IsContent(s, o, u);
  }

  lemma DatabaseIsValid(net: Net, n: IP)
    requires Authentic(net) && n in net.nodes
    ensures ValidDatabase(net.nodes[n].router.nodes)
  {
    var s := net.nodes[n];
    assert AuthenticNode(net, n, s);
    forall o | o in s.router.nodes ensures |o| == 16 && ValidConns(s.router.nodes[o]) {
      assert Holds(s, o);
      var u :| u in net.history && IsHeld(s, o, u);
    }
  }

  lemma AuthenticStores(net: Net, n: IP)
    requires Authentic(net) && n in net.nodes
    ensures StoresGenerated(net.history, net.nodes[n])
  {
    var s := net.nodes[n];
    assert AuthenticNode(net, n, s);
    DatabaseIsValid(net, n);
    forall o | o in s.known ensures exists u :: u in net.history && IsContent(s, o, u) {
      assert Holds(s, o);
      KnownIsContent(net.history, s, o);
    }
  }

  /** Safety of the flood in every reachable state of the full system. */
  lemma FloodSafety(crypto: Crypto, net: Net, steps: seq<Step>, n: IP)
    requires Init(net) && IsRun(crypto, net, steps) && n in net.nodes
    ensures n in Exec(crypto, net, steps).nodes
    ensures StoresGenerated(Exec(crypto, net, steps).history, Exec(crypto, net, steps).nodes[n])
  {
    InitIsAuthentic(net);
    RunKeepsAuthentic(crypto, net, steps);
    RunKeepsNodes(crypto, net, steps);
    AuthenticStores(Exec(crypto, net, steps), n);
  }

  /** The external routes added are CIDR subnets. */
  predicate CIDRSteps(steps: seq<Step>) {
    forall i :: 0 <= i < |steps| && steps[i].AddRoute? ==> IsCIDR(steps[i].dest)
  }

  /** Every node's external routes and everything ever announced are CIDR subnets. */
  ghost predicate AllCIDR(net: Net) {
    && (forall n :: n in net.nodes ==> CIDRRoutes(net.nodes[n]))
    && (forall u :: u in net.history ==> Router.CIDRConns(u.conns))
  }

  lemma StepKeepsRoutesCIDR(crypto: Crypto, s: Node, step: Step)
    requires CIDRRoutes(s) && (step.AddRoute? ==> IsCIDR(step.dest))
    ensures CIDRRoutes(NodeAfter(crypto, s, step))
  {
  }

  lemma StepKeepsCIDR(crypto: Crypto, net: Net, step: Step)
    requires Authentic(net) && AllCIDR(net) && Enabled(net, step) && (step.AddRoute? ==> IsCIDR(step.dest))
    ensures AllCIDR(Apply(crypto, net, step))
  {
    var s := net.nodes[Actor(step)];
    assert AuthenticNode(net, Actor(step), s);
    StepKeepsRoutesCIDR(crypto, s, step);
    if step.Originate? {
      GeneratedIsGood(s, step.conns);
    }
  }

  lemma {:induction false} RunKeepsCIDR(crypto: Crypto, net: Net, steps: seq<Step>)
    requires Authentic(net) && AllCIDR(net) && IsRun(crypto, net, steps) && CIDRSteps(steps)
    ensures AllCIDR(Exec(crypto, net, steps))
    decreases steps
  {
    if steps != [] {
      StepKeepsAuthentic(crypto, net, steps[0]);
      StepKeepsCIDR(crypto, net, steps[0]);
      RunKeepsCIDR(crypto, Apply(crypto, net, steps[0]), steps[1..]);
    }
  }

  /** Every update ever generated, whatever sessions and routes came and went, carries positive
      costs only, and CIDR subnets only if the external routes are such. */
  lemma UpdatesArePositive(crypto: Crypto, net: Net, steps: seq<Step>, u: Update)
    requires Init(net) && IsRun(crypto, net, steps) && u in Exec(crypto, net, steps).history
    ensures ValidConns(u.conns) && |u.origin| == 16
    ensures CIDRSteps(steps) ==> Router.CIDRConns(u.conns)
  {
    InitIsAuthentic(net);
    RunKeepsAuthentic(crypto, net, steps);
    if CIDRSteps(steps) {
      RunKeepsCIDR(crypto, net, steps);
    }
  }

  lemma {:induction false} RunKeepsNodes(crypto: Crypto, net: Net, steps: seq<Step>)
    requires IsRun(crypto, net, steps)
    ensures Exec(crypto, net, steps).nodes.Keys == net.nodes.Keys
    decreases steps
  {
    if steps != [] {
      RunKeepsNodes(crypto, Apply(crypto, net, steps[0]), steps[1..]);
    }
  }

  /** The step makes node n forget what it knows about o. */
  predicate Forgets(step: Step, n: IP, o: IP) {
    (step.Restart? && step.n == n) || (step.Prune? && step.n == n && o in step.dead)
  }

  lemma StepNeverGoesBack(crypto: Crypto, s: Node, step: Step, o: IP)
    requires GoodNode(s) && Holds(s, o) && !Forgets(step, s.addr, o) && Actor(step) == s.addr
    ensures var t := NodeAfter(crypto, s, step);
            t.addr == s.addr && Holds(t, o) && !Newer(HeldVersion(s, o), HeldVersion(t, o))
    ensures step.Deliver? && o == step.packet.update.origin && Accepts(s, step.packet.update) ==>
              Newer(HeldVersion(NodeAfter(crypto, s, step), o), HeldVersion(s, o))
  {
  }

  /** Between prunings of an entry its version never goes back, over whole runs. */
  lemma {:induction false} HeldNeverGoesBack(crypto: Crypto, net: Net, steps: seq<Step>, n: IP, o: IP)
    requires Authentic(net) && IsRun(crypto, net, steps) && n in net.nodes && Holds(net.nodes[n], o)
    requires forall i :: 0 <= i < |steps| ==> !Forgets(steps[i], n, o)
    ensures var end := Exec(crypto, net, steps);
            n in end.nodes && Holds(end.nodes[n], o) && (o == n || o in end.nodes[n].known)
            && end.nodes[n].addr == net.nodes[n].addr
            && !Newer(HeldVersion(net.nodes[n], o), HeldVersion(end.nodes[n], o))
    decreases steps
  {
    assert AuthenticNode(net, n, net.nodes[n]);
    if steps != [] {
      var next := Apply(crypto, net, steps[0]);
      StepKeepsAuthentic(crypto, net, steps[0]);
      if n == Actor(steps[0]) {
        StepNeverGoesBack(crypto, net.nodes[n], steps[0], o);
      }
      HeldNeverGoesBack(crypto, next, steps[1..], n, o);
    }
  }

  // ----- routers -------------------------------------------------------------------------

  /** Every node's policy cache is coherent with its database. */
  ghost predicate RoutersCoherent(net: Net) {
    forall n :: n in net.nodes ==> Router.Coherent(n, net.nodes[n].router)
  }

  /** And all subnets are in CIDR form, so that lookups do not depend on map order. */
  ghost predicate RoutersSound(net: Net) {
    AllCIDR(net) && forall n :: n in net.nodes ==> Router.Sound(n, net.nodes[n].router)
  }

  lemma StepCoherent(crypto: Crypto, s: Node, step: Step)
    requires Router.Coherent(s.addr, s.router)
    requires step.Recalculate? ==> Router.Possible(s.addr, s.router, Router.Recalculated(step.policy))
    ensures Router.Coherent(s.addr, NodeAfter(crypto, s, step).router)
  {
    match step
    case Originate(_, _) =>
    case Deliver(_, _) =>
    case Prune(_, dead) => Router.RemoveAllKeepsCoherent(s.addr, s.router, s.known.Keys * dead);
    case Restart(_, _, _) => Router.InitialCoherent(s.addr);
    case Recalculate(_, _) =>
    case _ => OtherStepsKeepRouter(crypto, s, step);
  }

  lemma StepKeepsCoherent(crypto: Crypto, net: Net, step: Step)
    requires Authentic(net) && RoutersCoherent(net) && Enabled(net, step)
    ensures RoutersCoherent(Apply(crypto, net, step))
  {
    var s := net.nodes[Actor(step)];
    assert AuthenticNode(net, Actor(step), s);
    StepCoherent(crypto, s, step);
    var next := Apply(crypto, net, step);
    forall n | n in next.nodes ensures Router.Coherent(n, next.nodes[n].router) {
      if n != Actor(step) {
        assert next.nodes[n] == net.nodes[n];
      }
    }
  }

  lemma {:induction false} RunKeepsCoherent(crypto: Crypto, net: Net, steps: seq<Step>)
    requires Authentic(net) && RoutersCoherent(net) && IsRun(crypto, net, steps)
    ensures RoutersCoherent(Exec(crypto, net, steps))
    decreases steps
  {
    if steps != [] {
      StepKeepsAuthentic(crypto, net, steps[0]);
      StepKeepsCoherent(crypto, net, steps[0]);
      RunKeepsCoherent(crypto, Apply(crypto, net, steps[0]), steps[1..]);
    }
  }

  /** What a step needs of what it brings in. */
  ghost predicate BringsCIDR(s: Node, step: Step) {
    && (step.Originate? ==> Announces(s, step.conns))
    && (step.Deliver? ==> GoodUpdate(step.packet.update) && Router.CIDRConns(step.packet.update.conns))
    && (step.Recalculate? ==> Router.Possible(s.addr, s.router, Router.Recalculated(step.policy)))
  }

  lemma OriginateRouter(crypto: Crypto, s: Node, step: Step)
    requires ValidNode(s) && step.Originate? && Announces(s, step.conns)
    ensures Router.Sound(s.addr, NodeAfter(crypto, s, step).router)
  {
    OriginateKeepsValid(s, step.conns);
  }

  lemma DeliverRouter(crypto: Crypto, s: Node, step: Step)
    requires ValidNode(s) && step.Deliver? && BringsCIDR(s, step)
    ensures Router.Sound(s.addr, NodeAfter(crypto, s, step).router)
  {
    AcceptKeepsValid(crypto, s, step.packet.update, step.stored);
  }

  lemma PruneRouter(crypto: Crypto, s: Node, step: Step)
    requires Router.Sound(s.addr, s.router) && step.Prune?
    ensures Router.Sound(s.addr, NodeAfter(crypto, s, step).router)
  {
    var gone := s.known.Keys * step.dead;
    Router.RemoveAllKeepsSound(s.addr, s.router, gone);
    assert NodeAfter(crypto, s, step).router == Router.AfterRemoveAll(s.router, gone);
  }

  lemma RestartRouter(crypto: Crypto, s: Node, step: Step)
    requires step.Restart?
    ensures Router.Sound(s.addr, NodeAfter(crypto, s, step).router)
  {
    Router.InitialIsSound(s.addr);
  }

  lemma RecalculateRouter(crypto: Crypto, s: Node, step: Step)
    requires Router.Sound(s.addr, s.router) && step.Recalculate?
    requires Router.Possible(s.addr, s.router, Router.Recalculated(step.policy))
    ensures Router.Sound(s.addr, NodeAfter(crypto, s, step).router)
  {
    Router.RecalculateKeepsSound(s.addr, s.router, step.policy);
  }

  lemma StepRouter(crypto: Crypto, s: Node, step: Step)
    requires ValidNode(s) && BringsCIDR(s, step)
    ensures Router.Sound(s.addr, NodeAfter(crypto, s, step).router)
  {
    match step
    case Originate(_, _) => OriginateRouter(crypto, s, step);
    case Deliver(_, _) => DeliverRouter(crypto, s, step);
    case Prune(_, _) => PruneRouter(crypto, s, step);
    case Restart(_, _, _) => RestartRouter(crypto, s, step);
    case Recalculate(_, _) => RecalculateRouter(crypto, s, step);
    case _ => OtherStepsKeepRouter(crypto, s, step);
  }

  lemma OtherStepsKeepRouter(crypto: Crypto, s: Node, step: Step)
    requires !step.Originate? && !step.Deliver? && !step.Prune? && !step.Restart? && !step.Recalculate?
    ensures NodeAfter(crypto, s, step).router == s.router
  {
  }

  lemma StepKeepsRouters(crypto: Crypto, net: Net, step: Step)
    requires Authentic(net) && RoutersSound(net) && Enabled(net, step) && (step.AddRoute? ==> IsCIDR(step.dest))
    ensures RoutersSound(Apply(crypto, net, step))
  {
    var s := net.nodes[Actor(step)];
    var next := Apply(crypto, net, step);
    assert AuthenticNode(net, Actor(step), s);
    StepKeepsCIDR(crypto, net, step);
    StepRouter(crypto, s, step);
    forall n | n in next.nodes ensures Router.Sound(n, next.nodes[n].router) {
      if n != Actor(step) {
        assert next.nodes[n] == net.nodes[n];
      }
    }
  }

  lemma {:induction false} RunKeepsRouters(crypto: Crypto, net: Net, steps: seq<Step>)
    requires Authentic(net) && RoutersSound(net) && IsRun(crypto, net, steps) && CIDRSteps(steps)
    ensures RoutersSound(Exec(crypto, net, steps))
    decreases steps
  {
    if steps != [] {
      StepKeepsAuthentic(crypto, net, steps[0]);
      StepKeepsRouters(crypto, net, steps[0]);
      RunKeepsRouters(crypto, Apply(crypto, net, steps[0]), steps[1..]);
    }
  }

  lemma InitRoutersSound(net: Net)
    requires Init(net)
    ensures RoutersSound(net) && RoutersCoherent(net)
  {
    forall n | n in net.nodes ensures Router.Sound(n, net.nodes[n].router) {
      Router.InitialIsSound(n);
    }
  }

  /** In every reachable state of the full system every node's policy, unless a recalculation is
      due, is right for the database the flood has brought it; and lookups do not depend on map
      order if the external routes are CIDR subnets. */
  lemma RoutersAlwaysSound(crypto: Crypto, net: Net, steps: seq<Step>)
    requires Init(net) && IsRun(crypto, net, steps)
    ensures RoutersCoherent(Exec(crypto, net, steps))
    ensures CIDRSteps(steps) ==> RoutersSound(Exec(crypto, net, steps))
  {
    InitIsAuthentic(net);
    InitRoutersSound(net);
    RunKeepsCoherent(crypto, net, steps);
    if CIDRSteps(steps) {
      RunKeepsRouters(crypto, net, steps);
    }
  }
}
