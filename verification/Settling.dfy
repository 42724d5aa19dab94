/** Recovery is possible from every state with symmetric sessions, whatever restarts, losses and
    session changes came before: let every node announce itself, deliver what is in flight, and
    let every router recalculate.  The state reached is one of which the delivery theorem speaks. */
module Settling {
  import opened Address
  import opened Graph
  import opened Routes
  import opened Node
  import opened Flood
  import opened Agreement
  import opened FloodTermination
  import opened EndToEnd
  import PolicyExistence
  import Fwd = Forwarding
  import Router

  // ----- runs one after the other --------------------------------------------------------

  /** Steps that neither lose, forget nor change sessions, add no routes and store what is to be
      stored. */
  predicate Benign(step: Step) {
    step.Originate? || (step.Deliver? && step.stored) || step.Recalculate?
  }

  ghost predicate BenignRun(crypto: Crypto, net: Net, steps: seq<Step>) {
    IsRun(crypto, net, steps) && AllBenign(steps)
  }

  predicate AllBenign(steps: seq<Step>) {
    forall i :: 0 <= i < |steps| ==> Benign(steps[i])
  }

  lemma ConsConcat<T>(a: seq<T>, b: seq<T>)
    requires a != []
    ensures a + b == [a[0]] + (a[1..] + b)
  {
  }

  lemma AllBenignConcat(a: seq<Step>, b: seq<Step>)
    requires AllBenign(a) && AllBenign(b)
    ensures AllBenign(a + b)
  {
  }

  lemma {:induction false} RunsCompose(crypto: Crypto, net: Net, a: seq<Step>, b: seq<Step>)
    requires IsRun(crypto, net, a) && IsRun(crypto, Exec(crypto, net, a), b)
    ensures IsRun(crypto, net, a + b) && Exec(crypto, net, a + b) == Exec(crypto, Exec(crypto, net, a), b)
    decreases a
  {
    if a == [] {
      assert a + b == b;
    } else {
      RunsCompose(crypto, Apply(crypto, net, a[0]), a[1..], b);
      ConsConcat(a, b);
      LongerRun(crypto, net, a[0], a[1..] + b);
    }
  }

  /** The steps lead from net to end. */
  ghost predicate Leads(crypto: Crypto, net: Net, steps: seq<Step>, end: Net) {
    BenignRun(crypto, net, steps) && Exec(crypto, net, steps) == end
  }

  lemma LeadsOn(crypto: Crypto, net: Net, a: seq<Step>, mid: Net, b: seq<Step>, end: Net)
    requires Leads(crypto, net, a, mid) && Leads(crypto, mid, b, end)
    ensures Leads(crypto, net, a + b, end)
  {
    RunsCompose(crypto, net, a, b);
    AllBenignConcat(a, b);
  }

  lemma LeadsOneStep(crypto: Crypto, net: Net, step: Step)
    requires Enabled(net, step) && Benign(step)
    ensures Leads(crypto, net, [step], Apply(crypto, net, step))
  {
    LongerRun(crypto, net, step, []);
    assert [step] + [] == [step];
  }

  // ----- announcing ----------------------------------------------------------------------

  ghost function SessionKeys(s: Node): set<Subnet> {
    set m | m in s.sessions :: HostOnly(m)
  }

  ghost function RouteKeys(s: Node): set<Subnet> {
    set name | name in s.routes :: s.routes[name].dest
  }

  ghost function AnnouncedCost(s: Node, k: Subnet): (c: nat)
    requires k in SessionKeys(s) + RouteKeys(s)
    ensures HasRoute(s, k, c) || (!HasDest(s, k) && HasSession(s, k, c))
  {
    if k in RouteKeys(s) then
      var name :| name in s.routes && s.routes[name].dest == k;
      assert s.routes[name] == Route(k, s.routes[name].cost);
      s.routes[name].cost
    else
      var m :| m in s.sessions && k == HostOnly(m);
      s.sessions[m]
  }

  /** Every node has something to announce. */
  ghost function SomeAnnouncement(s: Node): (conns: Conns)
    ensures Announces(s, conns)
  {
    map k | k in SessionKeys(s) + RouteKeys(s) :: AnnouncedCost(s, k)
  }

  /** The node has announced itself since then, and nothing that it announces has changed. */
  ghost predicate UpToDate(base: map<IP, Version>, n: IP, s: Node) {
    s.addr == n && Since(base, n, Clock(s)) && IsCurrent(s)
  }

  /** No clock is before the one noted. */
  ghost predicate NotBefore(base: map<IP, Version>, net: Net) {
    forall n :: n in net.nodes ==> n in base && !Newer(base[n], Clock(net.nodes[n]))
  }

  lemma ClocksNotBefore(net: Net)
    ensures NotBefore(Clocks(net), net)
  {
  }

  lemma BenignClock(crypto: Crypto, s: Node, step: Step)
    requires Benign(step)
    ensures var t := NodeAfter(crypto, s, step);
            t.addr == s.addr && t.epoch == s.epoch && t.sequence == s.sequence + (if step.Originate? then 1 else 0)
    ensures NodeAfter(crypto, s, step).sessions == s.sessions && NodeAfter(crypto, s, step).routes == s.routes
  {
  }

  lemma BenignRow(crypto: Crypto, s: Node, step: Step)
    requires Benign(step) && !step.Originate?
    ensures var t := NodeAfter(crypto, s, step);
            (s.addr in t.router.nodes <==> s.addr in s.router.nodes)
            && (s.addr in s.router.nodes ==> t.router.nodes[s.addr] == s.router.nodes[s.addr])
  {
  }

  lemma OriginateUpToDate(crypto: Crypto, base: map<IP, Version>, s: Node, conns: Conns)
    requires Announces(s, conns) && s.addr in base && !Newer(base[s.addr], Clock(s))
    ensures UpToDate(base, s.addr, AfterOriginate(s, conns))
  {
    SameAnnouncements(s, AfterOriginate(s, conns), conns);
  }

  lemma BenignUpToDate(crypto: Crypto, base: map<IP, Version>, s: Node, step: Step)
    requires Benign(step) && !step.Originate? && UpToDate(base, s.addr, s)
    ensures UpToDate(base, s.addr, NodeAfter(crypto, s, step))
  {
    var t := NodeAfter(crypto, s, step);
    BenignClock(crypto, s, step);
    BenignRow(crypto, s, step);
    if s.addr in s.router.nodes {
      SameAnnouncements(s, t, s.router.nodes[s.addr]);
    }
  }

  ghost predicate Announced(base: map<IP, Version>, net: Net, nodes: set<IP>) {
    forall n :: n in nodes ==> n in net.nodes && UpToDate(base, n, net.nodes[n])
  }

  ghost predicate Addressed(net: Net) {
    forall n :: n in net.nodes ==> net.nodes[n].addr == n
  }

  lemma BenignStep(crypto: Crypto, base: map<IP, Version>, net: Net, step: Step)
    requires Enabled(net, step) && Benign(step) && NotBefore(base, net) && Addressed(net)
    ensures NotBefore(base, Apply(crypto, net, step)) && Addressed(Apply(crypto, net, step))
  {
    BenignClock(crypto, net.nodes[Actor(step)], step);
  }

  lemma StepKeepsAnnounced(crypto: Crypto, base: map<IP, Version>, net: Net, step: Step, nodes: set<IP>)
    requires Enabled(net, step) && Benign(step) && NotBefore(base, net) && Addressed(net) && Announced(base, net, nodes)
    ensures Announced(base, Apply(crypto, net, step), nodes + if step.Originate? then {step.n} else {})
  {
    var s := net.nodes[Actor(step)];
    if step.Originate? {
      OriginateUpToDate(crypto, base, s, step.conns);
    } else if UpToDate(base, s.addr, s) {
      BenignUpToDate(crypto, base, s, step);
    }
  }

  lemma {:induction false} RunKeepsAnnounced(crypto: Crypto, base: map<IP, Version>, net: Net, steps: seq<Step>,
                                             nodes: set<IP>)
    requires BenignRun(crypto, net, steps) && NotBefore(base, net) && Addressed(net) && Announced(base, net, nodes)
    ensures var end := Exec(crypto, net, steps);
            NotBefore(base, end) && Addressed(end) && Announced(base, end, nodes)
    decreases steps
  {
    if steps != [] {
      BenignStep(crypto, base, net, steps[0]);
      StepKeepsAnnounced(crypto, base, net, steps[0], nodes);
      RunKeepsAnnounced(crypto, base, Apply(crypto, net, steps[0]), steps[1..], nodes);
    }
  }

  lemma AnnounceOne(crypto: Crypto, base: map<IP, Version>, net: Net, n: IP, nodes: set<IP>) returns (step: Step)
    requires n in net.nodes && n in nodes && NotBefore(base, net) && Addressed(net) && Announced(base, net, nodes - {n})
    ensures Enabled(net, step) && Benign(step) && Announced(base, Apply(crypto, net, step), nodes)
    ensures NotBefore(base, Apply(crypto, net, step)) && Addressed(Apply(crypto, net, step))
  {
    step := Originate(n, SomeAnnouncement(net.nodes[n]));
    BenignStep(crypto, base, net, step);
    StepKeepsAnnounced(crypto, base, net, step, nodes - {n});
    assert nodes - {n} + {n} == nodes;
  }

  lemma {:induction false} AnnounceAll(crypto: Crypto, base: map<IP, Version>, net: Net, todo: set<IP>)
    returns (steps: seq<Step>, end: Net)
    requires todo <= net.nodes.Keys && NotBefore(base, net) && Addressed(net)
    ensures Leads(crypto, net, steps, end) && Announced(base, end, todo) && NotBefore(base, end) && Addressed(end)
    decreases todo
  {
    if todo == {} {
      steps, end := [], net;
    } else {
      var n :| n in todo;
      var rest, mid := AnnounceAll(crypto, base, net, todo - {n});
      RunKeepsNodes(crypto, net, rest);
      var step := AnnounceOne(crypto, base, mid, n, todo);
      LeadsStep(crypto, net, rest, mid, step);
      steps, end := rest + [step], Apply(crypto, mid, step);
    }
  }

  // ----- recalculating -------------------------------------------------------------------

  ghost predicate Idle(net: Net, nodes: set<IP>) {
    forall n :: n in nodes ==> n in net.nodes && !net.nodes[n].router.pending
  }

  lemma RecalculateStep(crypto: Crypto, net: Net, n: IP) returns (step: Step)
    requires RoutersSound(net) && n in net.nodes
    ensures step.Recalculate? && step.n == n && Enabled(net, step)
  {
    var s := net.nodes[n].router;
    assert Router.Sound(n, s);
    var policy := PolicyExistence.CorrectPolicyExists(s.nodes, n);
    step := Recalculate(n, policy);
  }

  lemma StepKeepsIdle(crypto: Crypto, net: Net, step: Step, nodes: set<IP>)
    requires Enabled(net, step) && step.Recalculate? && Idle(net, nodes)
    ensures Idle(Apply(crypto, net, step), nodes + {step.n}) && Apply(crypto, net, step).inflight == net.inflight
  {
  }

  lemma RecalculateOne(crypto: Crypto, net: Net, n: IP, nodes: set<IP>) returns (step: Step)
    requires RoutersSound(net) && n in net.nodes && n in nodes && Idle(net, nodes - {n})
    ensures Enabled(net, step) && Benign(step)
    ensures Idle(Apply(crypto, net, step), nodes) && Apply(crypto, net, step).inflight == net.inflight
  {
    step := RecalculateStep(crypto, net, n);
    StepKeepsIdle(crypto, net, step, nodes - {n});
    assert nodes - {n} + {n} == nodes;
  }

  lemma LeadsStep(crypto: Crypto, net: Net, steps: seq<Step>, mid: Net, step: Step)
    requires Leads(crypto, net, steps, mid) && Enabled(mid, step) && Benign(step)
    ensures Leads(crypto, net, steps + [step], Apply(crypto, mid, step))
  {
    LeadsOneStep(crypto, mid, step);
    LeadsOn(crypto, net, steps, mid, [step], Apply(crypto, mid, step));
  }

  lemma LeadsSound(crypto: Crypto, net: Net, steps: seq<Step>, end: Net)
    requires Leads(crypto, net, steps, end) && Authentic(net) && RoutersSound(net)
    ensures RoutersSound(end) && end.nodes.Keys == net.nodes.Keys
  {
    RunKeepsNodes(crypto, net, steps);
    assert CIDRSteps(steps);
    RunKeepsRouters(crypto, net, steps);
  }

  lemma {:induction false} RecalculateAll(crypto: Crypto, net: Net, todo: set<IP>) returns (steps: seq<Step>, end: Net)
    requires Authentic(net) && RoutersSound(net) && todo <= net.nodes.Keys
    ensures Leads(crypto, net, steps, end) && Idle(end, todo) && end.inflight == net.inflight
    decreases todo
  {
    if todo == {} {
      steps, end := [], net;
    } else {
      var n :| n in todo;
      var rest, mid := RecalculateAll(crypto, net, todo - {n});
      LeadsSound(crypto, net, rest, mid);
      var step := RecalculateOne(crypto, mid, n, todo);
      LeadsStep(crypto, net, rest, mid, step);
      steps, end := rest + [step], Apply(crypto, mid, step);
    }
  }

  // ----- settling ------------------------------------------------------------------------

  lemma {:induction false} DeliveriesAreBenign(steps: seq<Step>)
    requires OnlyDeliveries(steps)
    ensures AllBenign(steps)
  {
    if steps != [] {
      DeliveriesAreBenign(steps[1..]);
      forall i | 0 <= i < |steps| ensures Benign(steps[i]) {
        assert i > 0 ==> steps[i] == steps[1..][i - 1];
      }
    }
  }

  lemma AnnouncedStays(crypto: Crypto, base: map<IP, Version>, net: Net, a: seq<Step>, first: Net, b: seq<Step>,
                       end: Net)
    requires Authentic(net) && base == Clocks(net) && Leads(crypto, net, a, first) && Leads(crypto, first, b, end)
    requires Announced(base, first, net.nodes.Keys)
    ensures Announced(base, end, net.nodes.Keys) && end.nodes.Keys == net.nodes.Keys
  {
    ClocksNotBefore(net);
    AuthenticIsAddressed(net);
    RunKeepsNodes(crypto, net, a);
    RunKeepsNodes(crypto, first, b);
    assert Announced(base, net, {});
    RunKeepsAnnounced(crypto, base, net, a, {});
    RunKeepsAnnounced(crypto, base, first, b, net.nodes.Keys);
  }

  lemma DrainInflight(crypto: Crypto, net: Net) returns (steps: seq<Step>, end: Net)
    requires Authentic(net)
    ensures Leads(crypto, net, steps, end) && end.inflight == multiset{}
  {
    steps := FloodCanFinish(crypto, net);
    DeliveriesAreBenign(steps);
    end := Exec(crypto, net, steps);
  }

  lemma AuthenticIsAddressed(net: Net)
    requires Authentic(net)
    ensures Addressed(net)
  {
    forall n | n in net.nodes ensures net.nodes[n].addr == n {
      assert AuthenticNode(net, n, net.nodes[n]);
    }
  }

  /** Every node announces itself, and everything in flight is delivered. */
  lemma AnnounceAndDrain(crypto: Crypto, net: Net) returns (steps: seq<Step>, end: Net)
    requires Authentic(net)
    ensures Leads(crypto, net, steps, end) && end.nodes.Keys == net.nodes.Keys && end.inflight == multiset{}
    ensures Announced(Clocks(net), end, net.nodes.Keys)
  {
    var nodes, base := net.nodes.Keys, Clocks(net);
    ClocksNotBefore(net);
    AuthenticIsAddressed(net);
    var a, first := AnnounceAll(crypto, base, net, nodes);
    RunKeepsAuthentic(crypto, net, a);
    RunKeepsNodes(crypto, net, a);
    var b, second := DrainInflight(crypto, first);
    RunKeepsNodes(crypto, first, b);
    RunKeepsAnnounced(crypto, base, first, b, nodes);
    LeadsOn(crypto, net, a, first, b, second);
    steps, end := a + b, second;
  }

  /** From every state that can come about there is a run without loss, pruning, restarts or
      changes after which nothing is in flight, no recalculation is pending and every node has
      announced itself anew. */
  lemma EveryNetworkCanSettle(crypto: Crypto, net: Net) returns (steps: seq<Step>, end: Net)
    requires Authentic(net) && RoutersSound(net)
    ensures Leads(crypto, net, steps, end) && end.nodes.Keys == net.nodes.Keys
    ensures end.inflight == multiset{} && forall u :: Ready(Clocks(net), end, u)
  {
    var nodes, base := net.nodes.Keys, Clocks(net);
    var a, first := AnnounceAndDrain(crypto, net);
    RunKeepsAuthentic(crypto, net, a);
    LeadsSound(crypto, net, a, first);
    var b, second := RecalculateAll(crypto, first, nodes);
    AnnouncedStays(crypto, base, net, a, first, b, second);
    LeadsOn(crypto, net, a, first, b, second);
    steps, end := a + b, second;
    forall u ensures Ready(base, end, u) {
      IdleIsReady(base, end, u);
    }
  }

  lemma IdleIsReady(base: map<IP, Version>, net: Net, u: IP)
    requires net.inflight == multiset{} && Idle(net, net.nodes.Keys) && Announced(base, net, net.nodes.Keys)
    ensures Ready(base, net, u)
  {
    forall n | n in Reach(net, u) ensures IsReady(base, n, net.nodes[n]) {
      assert UpToDate(base, n, net.nodes[n]);
    }
  }

  lemma BenignIsStatic(crypto: Crypto, net: Net, steps: seq<Step>)
    requires BenignRun(crypto, net, steps)
    ensures StaticRun(crypto, net, steps)
  {
  }

  lemma {:induction false} BenignKeepsRoutes(crypto: Crypto, net: Net, steps: seq<Step>, n: IP)
    requires BenignRun(crypto, net, steps) && n in net.nodes
    ensures n in Exec(crypto, net, steps).nodes && Exec(crypto, net, steps).nodes[n].routes == net.nodes[n].routes
    decreases steps
  {
    if steps != [] {
      BenignClock(crypto, net.nodes[Actor(steps[0])], steps[0]);
      BenignKeepsRoutes(crypto, Apply(crypto, net, steps[0]), steps[1..], n);
    }
  }

  /** No external route contains the address of another node of the network. */
  ghost predicate RoutesMissNodes(net: Net) {
    forall x, y :: x in net.nodes && y in net.nodes && y != x ==> !Captures(net.nodes[x], y)
  }

  lemma MissedIsNotCaptured(net: Net, u: IP)
    requires Authentic(net) && RoutesMissNodes(net)
    ensures NoCapture(net, u)
  {
    forall v | v in Reach(net, u) ensures NoCaptureAt(net, u, v) {
      forall x, y | x in Reach(net, u) && y in DatabaseOf(net, v) && y != x ensures !Captures(net.nodes[x], y) {
        assert AuthenticNode(net, v, net.nodes[v]);
        assert Holds(net.nodes[v], y);
        HeldIsBounded(net, v, y);
      }
    }
  }

  lemma RoutesStillMiss(crypto: Crypto, net: Net, steps: seq<Step>)
    requires BenignRun(crypto, net, steps) && RoutesMissNodes(net)
    ensures RoutesMissNodes(Exec(crypto, net, steps))
  {
    var end := Exec(crypto, net, steps);
    RunKeepsNodes(crypto, net, steps);
    forall x, y | x in end.nodes && y in end.nodes && y != x ensures !Captures(end.nodes[x], y) {
      BenignKeepsRoutes(crypto, net, steps, x);
      assert !Captures(net.nodes[x], y);
    }
  }

  /** Packets between any two nodes in reach of each other are served. */
  ghost predicate ServesAll(net: Net) {
    forall x, d :: x in net.nodes && Dist(SessionGraph(net), x, d) < MaxCost && !Fwd.IsMulticast(d) ==>
      Served(net, x, d)
  }

  /** Every network with symmetric sessions whose external routes stay clear of the nodes' own
      addresses can get, without loss, pruning, restarts or changes, to a state in which every
      packet between nodes in reach of each other is served, whatever happened to it before. */
  lemma EveryNetworkCanDeliver(crypto: Crypto, net: Net) returns (steps: seq<Step>)
    requires Authentic(net) && RoutersSound(net) && Symmetric(net) && RoutesMissNodes(net)
    ensures StaticRun(crypto, net, steps) && ServesAll(Exec(crypto, net, steps))
    ensures SessionGraph(Exec(crypto, net, steps)) == SessionGraph(net)
  {
    var end;
    steps, end := EveryNetworkCanSettle(crypto, net);
    BenignIsStatic(crypto, net, steps);
    RoutesStillMiss(crypto, net, steps);
    AuthenticFlows(net);
    StaticRunFlows(crypto, Clocks(net), net, steps);
    forall x, d | x in end.nodes && Dist(SessionGraph(end), x, d) < MaxCost && !Fwd.IsMulticast(d)
      ensures Served(end, x, d)
    {
      RunSettles(crypto, net, steps, x);
      ServedAt(Clocks(net), end, x, d);
    }
  }

  lemma ServedAt(base: map<IP, Version>, net: Net, x: IP, d: IP)
    requires EndToEnd.Settled(base, net, x) && RoutesMissNodes(net)
    requires x in net.nodes && Dist(SessionGraph(net), x, d) < MaxCost && !Fwd.IsMulticast(d)
    ensures Served(net, x, d)
  {
    MissedIsNotCaptured(net, x);
    NoCaptureUnhindered(base, net, x);
    JoinedSelf(net, x);
    var w := SettledDelivers(base, net, x, x, d);
  }

  /** From the start: after any run whatever of the full system, with loss, duplication, pruning,
      restarts and changing sessions, the network can still get to such a state. */
  lemma EveryRunCanRecover(crypto: Crypto, net: Net, before: seq<Step>) returns (steps: seq<Step>)
    requires Init(net) && IsRun(crypto, net, before) && CIDRSteps(before)
    requires Symmetric(Exec(crypto, net, before)) && RoutesMissNodes(Exec(crypto, net, before))
    ensures StaticRun(crypto, Exec(crypto, net, before), steps)
    ensures ServesAll(Exec(crypto, Exec(crypto, net, before), steps))
  {
    InitIsAuthentic(net);
    RunKeepsAuthentic(crypto, net, before);
    RoutersAlwaysSound(crypto, net, before);
    steps := EveryNetworkCanDeliver(crypto, Exec(crypto, net, before));
  }
}
