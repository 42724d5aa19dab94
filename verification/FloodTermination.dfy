/** The flood dies out: a bound on the deliveries of every run in which no node forgets. */
module FloodTermination {
  import opened Address
  import opened Node
  import opened Flood
  import Router

  /** No pruning and no restart; loss, duplication and session changes are allowed. */
  predicate Remembers(step: Step) {
    !step.Prune? && !step.Restart?
  }

  ghost predicate RememberingRun(crypto: Crypto, net: Net, steps: seq<Step>) {
    IsRun(crypto, net, steps) && forall i :: 0 <= i < |steps| ==> Remembers(steps[i])
  }

  /** The acceptances that are still possible: nodes paired with generated updates. */
  function Unseen(net: Net): set<(IP, Update)> {
    set n, u | n in net.nodes && u in net.history && Accepts(net.nodes[n], u) :: (n, u)
  }

  /** Packets in flight, and for every possible acceptance one packet per node. */
  function Potential(net: Net): nat {
    |net.inflight| + |net.nodes| * |Unseen(net)|
  }

  // ----- what a step does to the two parts -----------------------------------------------

  /** A refused update stays refused. */
  lemma RefusalStays(crypto: Crypto, s: Node, step: Step, u: Update)
    requires GoodNode(s) && Remembers(step) && Actor(step) == s.addr && !Accepts(s, u) && GoodUpdate(u)
    ensures !Accepts(NodeAfter(crypto, s, step), u)
  {
  }

  lemma AcceptedIsRefused(crypto: Crypto, s: Node, u: Update, stored: bool)
    requires GoodNode(s) && GoodUpdate(u)
    ensures !Accepts(AfterUpdate(crypto, s, u, stored), u)
  {
  }

  lemma NoNewAcceptance(crypto: Crypto, net: Net, step: Step, n: IP, u: Update)
    requires Authentic(net) && Enabled(net, step) && Remembers(step)
    requires n in net.nodes && u in net.history && Accepts(Apply(crypto, net, step).nodes[n], u)
    ensures Accepts(net.nodes[n], u)
  {
    assert AuthenticNode(net, n, net.nodes[n]);
    if n == Actor(step) && !Accepts(net.nodes[n], u) {
      RefusalStays(crypto, net.nodes[n], step, u);
    }
  }

  lemma UnseenShrinks(crypto: Crypto, net: Net, step: Step)
    requires Authentic(net) && Enabled(net, step) && Remembers(step) && !step.Originate?
    ensures Unseen(Apply(crypto, net, step)) <= Unseen(net)
  {
    var next := Apply(crypto, net, step);
    forall n, u | (n, u) in Unseen(next) ensures (n, u) in Unseen(net) {
      NoNewAcceptance(crypto, net, step, n, u);
    }
  }

  lemma UnseenLosesAccepted(crypto: Crypto, net: Net, step: Step)
    requires Authentic(net) && Enabled(net, step) && step.Deliver?
    requires Accepts(net.nodes[step.packet.dst], step.packet.update)
    ensures (step.packet.dst, step.packet.update) in Unseen(net)
    ensures (step.packet.dst, step.packet.update) !in Unseen(Apply(crypto, net, step))
  {
    assert AuthenticNode(net, step.packet.dst, net.nodes[step.packet.dst]);
    AcceptedIsRefused(crypto, net.nodes[step.packet.dst], step.packet.update, step.stored);
  }

  lemma UnseenGrowsByOneUpdate(crypto: Crypto, net: Net, step: Step)
    requires Authentic(net) && Enabled(net, step) && step.Originate?
    ensures Unseen(Apply(crypto, net, step)) <=
            Unseen(net) + set m | m in net.nodes.Keys - {step.n} :: (m, GenerateUpdate(net.nodes[step.n], step.conns))
  {
    var s := net.nodes[step.n];
    var u0 := GenerateUpdate(s, step.conns);
    var next := Apply(crypto, net, step);
    assert AuthenticNode(net, step.n, s);
    forall n, u | (n, u) in Unseen(next)
      ensures (n, u) in Unseen(net) || (n in net.nodes.Keys - {step.n} && u == u0)
    {
      if u in net.history {
        NoNewAcceptance(crypto, net, step, n, u);
      }
    }
  }

  // ----- counting ------------------------------------------------------------------------

  lemma {:induction false} PairsCount(s: set<IP>, u: Update)
    ensures |set m | m in s :: (m, u)| == |s|
  {
    if s != {} {
      var x :| x in s;
      PairsCount(s - {x}, u);
      var rest := set m | m in s - {x} :: (m, u);
      assert (set m | m in s :: (m, u)) == rest + {(x, u)};
    }
  }

  lemma {:induction false} PacketsCount(src: IP, peers: set<IP>, u: Update)
    ensures |set m | m in peers :: Packet(src, m, u)| == |peers|
  {
    if peers != {} {
      var x :| x in peers;
      PacketsCount(src, peers - {x}, u);
      var rest := set m | m in peers - {x} :: Packet(src, m, u);
      assert (set m | m in peers :: Packet(src, m, u)) == rest + {Packet(src, x, u)};
    }
  }

  lemma FloodedCount(net: Net, n: IP, except: set<IP>, u: Update)
    requires Authentic(net) && n in net.nodes
    ensures |Flooded(net.nodes[n], except, u)| <= |net.nodes| - 1
  {
    var s := net.nodes[n];
    assert AuthenticNode(net, n, s);
    var peers := s.sessions.Keys - except;
    PacketsCount(s.addr, peers, u);
    assert (set m | m in s.sessions && m !in except :: Packet(s.addr, m, u)) ==
      (set m | m in peers :: Packet(s.addr, m, u));
    Router.SubsetSize(peers, net.nodes.Keys - {n});
  }

  lemma Product(n: nat, a: nat, b: nat)
    requires a <= b
    ensures n * a <= n * b
    ensures a + 1 <= b ==> n * a + n <= n * b
  {
    if a + 1 <= b {
      assert n * (a + 1) <= n * b;
    }
  }

  lemma DeliverLowers(crypto: Crypto, net: Net, step: Step)
    requires Authentic(net) && Enabled(net, step) && step.Deliver?
    ensures Potential(Apply(crypto, net, step)) + 1 <= Potential(net)
  {
    var next := Apply(crypto, net, step);
    var p := step.packet;
    assert next.nodes.Keys == net.nodes.Keys;
    assert |next.nodes| == |net.nodes|;
    UnseenShrinks(crypto, net, step);
    Router.SubsetSize(Unseen(next), Unseen(net));
    Product(|net.nodes|, |Unseen(next)|, |Unseen(net)|);
    assert |net.inflight - multiset{p}| == |net.inflight| - 1;
    if Accepts(net.nodes[p.dst], p.update) {
      UnseenLosesAccepted(crypto, net, step);
      Router.SubsetSize(Unseen(next), Unseen(net) - {(p.dst, p.update)});
      FloodedCount(net, p.dst, {p.src}, p.update);
      Product(|net.nodes|, |Unseen(next)|, |Unseen(net)|);
    }
  }

  lemma OriginateUnseen(crypto: Crypto, net: Net, step: Step)
    requires Authentic(net) && Enabled(net, step) && step.Originate?
    ensures |Unseen(Apply(crypto, net, step))| <= |Unseen(net)| + |net.nodes| - 1
  {
    var u := GenerateUpdate(net.nodes[step.n], step.conns);
    var others := net.nodes.Keys - {step.n};
    PairsCount(others, u);
    UnseenGrowsByOneUpdate(crypto, net, step);
    Router.SubsetSize(Unseen(Apply(crypto, net, step)), Unseen(net) + set m | m in others :: (m, u));
  }

  lemma OriginateArithmetic(size: nat, a: nat, b: nat, x: nat, y: nat)
    requires a <= b + size - 1 && x <= y + size - 1 && size > 0
    ensures x + size * a <= y + size * b + size * size - 1
  {
    Product(size, a, b + size - 1);
    assert size * (b + size - 1) == size * b + size * size - size;
  }

  lemma OriginateRaises(crypto: Crypto, net: Net, step: Step)
    requires Authentic(net) && Enabled(net, step) && step.Originate?
    ensures Potential(Apply(crypto, net, step)) <= Potential(net) + |net.nodes| * |net.nodes| - 1
  {
    var next := Apply(crypto, net, step);
    assert next.nodes.Keys == net.nodes.Keys;
    assert |next.nodes| == |net.nodes|;
    OriginateUnseen(crypto, net, step);
    FloodedCount(net, step.n, {}, GenerateUpdate(net.nodes[step.n], step.conns));
    OriginateArithmetic(|net.nodes|, |Unseen(next)|, |Unseen(net)|, |next.inflight|, |net.inflight|);
  }

  lemma OtherStepsKeep(crypto: Crypto, net: Net, step: Step)
    requires Authentic(net) && Enabled(net, step) && Remembers(step) && !step.Originate? && !step.Deliver?
    ensures Potential(Apply(crypto, net, step)) <= Potential(net) + (if step.Duplicate? then 1 else 0)
  {
    var next := Apply(crypto, net, step);
    assert next.nodes.Keys == net.nodes.Keys;
    assert |next.nodes| == |net.nodes|;
    UnseenShrinks(crypto, net, step);
    Router.SubsetSize(Unseen(next), Unseen(net));
    Product(|net.nodes|, |Unseen(next)|, |Unseen(net)|);
  }

  // ----- runs ----------------------------------------------------------------------------

  function Deliveries(steps: seq<Step>): nat {
    if steps == [] then 0 else (if steps[0].Deliver? then 1 else 0) + Deliveries(steps[1..])
  }

  function Originations(steps: seq<Step>): nat {
    if steps == [] then 0 else (if steps[0].Originate? then 1 else 0) + Originations(steps[1..])
  }

  function Duplications(steps: seq<Step>): nat {
    if steps == [] then 0 else (if steps[0].Duplicate? then 1 else 0) + Duplications(steps[1..])
  }

  /** What a step adds to the potential at most. */
  function Weight(size: nat, step: Step): nat
    requires size > 0
  {
    if step.Originate? then size * size - 1 else if step.Duplicate? then 1 else 0
  }

  function Weights(size: nat, steps: seq<Step>): nat
    requires size > 0
  {
    if steps == [] then 0 else Weight(size, steps[0]) + Weights(size, steps[1..])
  }

  lemma {:induction false} WeightsInTotal(size: nat, steps: seq<Step>)
    requires size > 0
    ensures Weights(size, steps) == (size * size - 1) * Originations(steps) + Duplications(steps)
  {
    if steps != [] {
      WeightsInTotal(size, steps[1..]);
      assert (size * size - 1) * (1 + Originations(steps[1..])) ==
        (size * size - 1) + (size * size - 1) * Originations(steps[1..]);
    }
  }

  lemma StepWeighs(crypto: Crypto, net: Net, step: Step)
    requires Authentic(net) && Enabled(net, step) && Remembers(step)
    ensures |Apply(crypto, net, step).nodes| == |net.nodes| > 0
    ensures (if step.Deliver? then 1 else 0) + Potential(Apply(crypto, net, step))
            <= Potential(net) + Weight(|net.nodes|, step)
  {
    assert Apply(crypto, net, step).nodes.Keys == net.nodes.Keys;
    if step.Originate? {
      OriginateRaises(crypto, net, step);
    } else if step.Deliver? {
      DeliverLowers(crypto, net, step);
    } else {
      OtherStepsKeep(crypto, net, step);
    }
  }

  /** Every run in which no node forgets makes at most this many deliveries: the flood of
      finitely many updates ends, at less than |nodes| squared deliveries for each. */
  lemma {:induction false} FloodDiesOut(crypto: Crypto, net: Net, steps: seq<Step>)
    requires Authentic(net) && RememberingRun(crypto, net, steps) && |net.nodes| > 0
    ensures Deliveries(steps) <= Potential(net) + Weights(|net.nodes|, steps)
    decreases steps
  {
    if steps != [] {
      StepWeighs(crypto, net, steps[0]);
      StepKeepsAuthentic(crypto, net, steps[0]);
      FloodDiesOut(crypto, Apply(crypto, net, steps[0]), steps[1..]);
    }
  }

  lemma InitialPotential(net: Net)
    requires Init(net)
    ensures Potential(net) == 0
  {
    assert Unseen(net) == {};
  }

  /** From freshly started nodes the bound is the updates and duplicates alone. */
  lemma FreshFloodDiesOut(crypto: Crypto, net: Net, steps: seq<Step>)
    requires Init(net) && RememberingRun(crypto, net, steps) && |net.nodes| > 0
    ensures Deliveries(steps) <= Weights(|net.nodes|, steps)
  {
    InitIsAuthentic(net);
    InitialPotential(net);
    FloodDiesOut(crypto, net, steps);
  }

  /** A node forwards an update at most once: after accepting it, it refuses it in every later
      state of the run, however often the update comes back. */
  lemma {:induction false} ForwardedOnce(crypto: Crypto, net: Net, steps: seq<Step>, n: IP, u: Update)
    requires Authentic(net) && RememberingRun(crypto, net, steps)
    requires n in net.nodes && u in net.history && !Accepts(net.nodes[n], u)
    ensures n in Exec(crypto, net, steps).nodes && !Accepts(Exec(crypto, net, steps).nodes[n], u)
    decreases steps
  {
    if steps != [] {
      var next := Apply(crypto, net, steps[0]);
      StepKeepsAuthentic(crypto, net, steps[0]);
      if Accepts(next.nodes[n], u) {
        NoNewAcceptance(crypto, net, steps[0], n, u);
      }
      ForwardedOnce(crypto, next, steps[1..], n, u);
    }
  }

  lemma AcceptedAtMostOnce(crypto: Crypto, net: Net, first: Step, steps: seq<Step>)
    requires Authentic(net) && Enabled(net, first) && first.Deliver?
    requires RememberingRun(crypto, Apply(crypto, net, first), steps)
    ensures var end := Exec(crypto, Apply(crypto, net, first), steps);
            first.packet.dst in end.nodes && !Accepts(end.nodes[first.packet.dst], first.packet.update)
  {
    var next := Apply(crypto, net, first);
    assert AuthenticNode(net, first.packet.dst, net.nodes[first.packet.dst]);
    AcceptedIsRefused(crypto, net.nodes[first.packet.dst], first.packet.update, first.stored);
    StepKeepsAuthentic(crypto, net, first);
    ForwardedOnce(crypto, next, steps, first.packet.dst, first.packet.update);
  }

  predicate OnlyDeliveries(steps: seq<Step>) {
    steps == [] || (steps[0].Deliver? && steps[0].stored && OnlyDeliveries(steps[1..]))
  }

  /** From every reachable state, delivering what is in flight leads to a quiet state: the
      agreement theorems are about states that every network can get to. */
  lemma {:induction false} FloodCanFinish(crypto: Crypto, net: Net) returns (steps: seq<Step>)
    requires Authentic(net)
    ensures IsRun(crypto, net, steps) && OnlyDeliveries(steps)
    ensures Exec(crypto, net, steps).inflight == multiset{}
    decreases Potential(net)
  {
    if net.inflight == multiset{} {
      steps := [];
    } else {
      var p :| p in net.inflight;
      var step := Deliver(p, true);
      DeliverLowers(crypto, net, step);
      StepKeepsAuthentic(crypto, net, step);
      var rest := FloodCanFinish(crypto, Apply(crypto, net, step));
      steps := [step] + rest;
      LongerRun(crypto, net, step, rest);
    }
  }

  lemma LongerRun(crypto: Crypto, net: Net, step: Step, rest: seq<Step>)
    requires Enabled(net, step) && IsRun(crypto, Apply(crypto, net, step), rest)
    ensures IsRun(crypto, net, [step] + rest)
    ensures step.Deliver? && step.stored && OnlyDeliveries(rest) ==> OnlyDeliveries([step] + rest)
    ensures Exec(crypto, net, [step] + rest) == Exec(crypto, Apply(crypto, net, step), rest)
  {
    assert ([step] + rest)[1..] == rest;
  }
}
