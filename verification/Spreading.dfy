/** Configurations spread: after two rounds of announcing, with nothing left on its way after each,
    every node within reach that takes configurations and accepts the signature of a newest one has
    its version.  The first round tells the holders who is behind, the second one carries the data. */
module Spreading {
  import opened Address
  import opened Routes
  import opened Node
  import opened Flood
  import opened Agreement
  import opened ConfigCoherence
  import opened Settling

  /** No loss, pruning, restart, session change or operator, and what is to be stored can be. */
  predicate Spreads(step: Step) {
    Static(step) && !step.Operator? && (step.Deliver? ==> step.stored)
  }

  ghost predicate SpreadRun(crypto: Crypto, net: Net, steps: seq<Step>) {
    IsRun(crypto, net, steps) && forall i :: 0 <= i < |steps| ==> Spreads(steps[i])
  }

  lemma SpreadRunIsStatic(crypto: Crypto, net: Net, steps: seq<Step>)
    requires SpreadRun(crypto, net, steps)
    ensures StaticRun(crypto, net, steps)
  {
  }

  // ----- claims --------------------------------------------------------------------------

  /** Updates generated since then claim no newer configuration than their origin has. */
  ghost predicate ClaimsSince(base: map<IP, Version>, net: Net) {
    forall u :: u in net.history && Since(base, u.origin, u.version) ==>
      u.origin in net.nodes && u.configVersion <= net.nodes[u.origin].config.version
  }

  lemma NothingSince(net: Net)
    requires Authentic(net)
    ensures ClaimsSince(Clocks(net), net)
  {
  }

  lemma SpreadMovesForward(crypto: Crypto, net: Net, step: Step, n: IP)
    requires Authentic(net) && ConfigsDated(crypto, net) && Enabled(net, step) && Spreads(step) && n in net.nodes
    ensures Apply(crypto, net, step).nodes[n].config.version >= net.nodes[n].config.version
  {
    StepMovesForward(crypto, net, step, n);
  }

  lemma StepKeepsClaimsSince(crypto: Crypto, base: map<IP, Version>, net: Net, step: Step)
    requires Authentic(net) && ConfigsDated(crypto, net) && ClaimsSince(base, net)
    requires Enabled(net, step) && Spreads(step)
    ensures ClaimsSince(base, Apply(crypto, net, step))
  {
    var next := Apply(crypto, net, step);
    var s := net.nodes[Actor(step)];
    assert AuthenticNode(net, Actor(step), s);
    forall u | u in next.history && Since(base, u.origin, u.version)
      ensures u.origin in next.nodes && u.configVersion <= next.nodes[u.origin].config.version
    {
      if u in net.history {
        SpreadMovesForward(crypto, net, step, u.origin);
      } else {
        GeneratedCarries(s, step.conns);
      }
    }
  }

  /** The invariant of the first round, and of what is known in the second. */
  ghost predicate Honest(crypto: Crypto, base: map<IP, Version>, net: Net) {
    Authentic(net) && ConfigsDated(crypto, net) && ClaimsSince(base, net)
  }

  lemma StepKeepsHonest(crypto: Crypto, base: map<IP, Version>, net: Net, step: Step)
    requires Honest(crypto, base, net) && Enabled(net, step) && Spreads(step)
    ensures Honest(crypto, base, Apply(crypto, net, step))
  {
    StepKeepsAuthentic(crypto, net, step);
    StepKeepsDated(crypto, net, step);
    StepKeepsClaimsSince(crypto, base, net, step);
  }

  lemma {:induction false} RunKeepsHonest(crypto: Crypto, base: map<IP, Version>, net: Net, steps: seq<Step>)
    requires Honest(crypto, base, net) && SpreadRun(crypto, net, steps)
    ensures Honest(crypto, base, Exec(crypto, net, steps))
    ensures forall n :: n in net.nodes ==>
              && n in Exec(crypto, net, steps).nodes
              && Exec(crypto, net, steps).nodes[n].config.version >= net.nodes[n].config.version
    decreases steps
  {
    if steps != [] {
      var next := Apply(crypto, net, steps[0]);
      StepKeepsHonest(crypto, base, net, steps[0]);
      forall n | n in net.nodes ensures n in next.nodes && next.nodes[n].config.version >= net.nodes[n].config.version {
        SpreadMovesForward(crypto, net, steps[0], n);
      }
      RunKeepsHonest(crypto, base, next, steps[1..]);
    }
  }

  /** h has heard from x since then. */
  ghost predicate HasHeard(base: map<IP, Version>, net: Net, h: IP, x: IP) {
    h in net.nodes && x in net.nodes[h].known && Since(base, x, net.nodes[h].known[x].version)
  }

  /** What it has heard is no more than the truth. */
  lemma HeardIsTrue(crypto: Crypto, base: map<IP, Version>, net: Net, h: IP, x: IP)
    requires Honest(crypto, base, net) && HasHeard(base, net, h, x)
    ensures x in net.nodes && net.nodes[h].known[x].configVersion <= net.nodes[x].config.version
  {
    var s := net.nodes[h];
    assert AuthenticNode(net, h, s);
    assert Holds(s, x);
    var u :| u in net.history && IsHeld(s, x, u);
  }

  lemma StepKeepsHeard(crypto: Crypto, base: map<IP, Version>, net: Net, step: Step, h: IP, x: IP)
    requires Authentic(net) && HasHeard(base, net, h, x) && Enabled(net, step) && Spreads(step)
    ensures HasHeard(base, Apply(crypto, net, step), h, x)
  {
    assert AuthenticNode(net, h, net.nodes[h]);
    if h == Actor(step) {
      StepNeverGoesBack(crypto, net.nodes[h], step, x);
    }
  }

  // ----- where configurations come from --------------------------------------------------

  function ConfigIn(u: Update): Config {
    Config(u.configVersion, u.configData, u.configSignature)
  }

  /** Within reach of u, all configurations, at nodes and on their way to nodes, are among these. */
  ghost predicate Among(net: Net, u: IP, configs: set<Config>) {
    && (forall n :: n in Reach(net, u) ==> net.nodes[n].config in configs)
    && (forall p :: p in net.inflight && p.dst in Reach(net, u) && p.update.configData != [] ==>
          ConfigIn(p.update) in configs)
  }

  lemma StepKeepsReach(crypto: Crypto, net: Net, step: Step, u: IP)
    requires Enabled(net, step) && Static(step)
    ensures Reach(Apply(crypto, net, step), u) == Reach(net, u)
    ensures SessionGraph(Apply(crypto, net, step)) == SessionGraph(net)
  {
    StaticKeepsGraph(crypto, net, step);
    assert Apply(crypto, net, step).nodes.Keys == net.nodes.Keys;
    SameReach(net, Apply(crypto, net, step), u);
  }

  /** With symmetric sessions a neighbour of a node within reach is within reach. */
  lemma SenderInReach(net: Net, u: IP, n: IP, m: IP)
    requires Authentic(net) && Symmetric(net) && n in net.nodes && m in net.nodes[n].sessions && m in Reach(net, u)
    ensures n in Reach(net, u)
  {
    assert AuthenticNode(net, n, net.nodes[n]);
    assert Neighbour(net, n, m);
    NeighbourInReach(net, u, m, n);
  }

  /** A node's next configuration is its own or that of the update it gets. */
  lemma NextConfig(crypto: Crypto, net: Net, step: Step)
    requires Authentic(net) && ConfigsDated(crypto, net) && Enabled(net, step) && Spreads(step)
    ensures var s := net.nodes[Actor(step)]; var t := Apply(crypto, net, step).nodes[Actor(step)];
            || t.config == s.config
            || (step.Deliver? && step.packet.update.configData != [] && t.config == ConfigIn(step.packet.update))
  {
    OperatorExactly(crypto, net.nodes[Actor(step)], step);
    if step.Deliver? {
      AdoptionExactly(crypto, net, step);
      assert DatedUpdate(crypto, step.packet.update);
    }
  }

  lemma SentAmong(net: Net, u: IP, configs: set<Config>, step: Step, p: Packet)
    requires Authentic(net) && Symmetric(net) && Among(net, u, configs) && Enabled(net, step) && Spreads(step)
    requires p in Sent(net.nodes[Actor(step)], step) && p.dst in Reach(net, u) && p.update.configData != []
    ensures ConfigIn(p.update) in configs
  {
    var s := net.nodes[Actor(step)];
    assert AuthenticNode(net, Actor(step), s);
    if !step.Duplicate? {
      SentExactly(s, step, p);
      SenderInReach(net, u, Actor(step), p.dst);
      if step.Originate? {
        GeneratedCarries(s, step.conns);
      }
    }
  }

  lemma StepKeepsAmong(crypto: Crypto, net: Net, step: Step, u: IP, configs: set<Config>)
    requires Authentic(net) && ConfigsDated(crypto, net) && Symmetric(net) && Among(net, u, configs)
    requires Enabled(net, step) && Spreads(step)
    ensures Among(Apply(crypto, net, step), u, configs)
  {
    StepKeepsReach(crypto, net, step, u);
    NodesStayAmong(crypto, net, step, u, configs);
    PacketsStayAmong(crypto, net, step, u, configs);
  }

  lemma NodesStayAmong(crypto: Crypto, net: Net, step: Step, u: IP, configs: set<Config>)
    requires Authentic(net) && ConfigsDated(crypto, net) && Among(net, u, configs)
    requires Enabled(net, step) && Spreads(step)
    ensures forall n :: n in Reach(net, u) ==> Apply(crypto, net, step).nodes[n].config in configs
  {
    NextConfig(crypto, net, step);
    forall n | n in Reach(net, u) ensures Apply(crypto, net, step).nodes[n].config in configs {
      assert n != Actor(step) ==> Apply(crypto, net, step).nodes[n] == net.nodes[n];
    }
  }

  lemma PacketsStayAmong(crypto: Crypto, net: Net, step: Step, u: IP, configs: set<Config>)
    requires Authentic(net) && Symmetric(net) && Among(net, u, configs) && Enabled(net, step) && Spreads(step)
    ensures var next := Apply(crypto, net, step);
            forall p :: p in next.inflight && p.dst in Reach(net, u) && p.update.configData != [] ==>
              ConfigIn(p.update) in configs
  {
    forall p | p in Apply(crypto, net, step).inflight && p.dst in Reach(net, u) && p.update.configData != []
      ensures ConfigIn(p.update) in configs
    {
      if p !in net.inflight {
        SentAmong(net, u, configs, step, p);
      }
    }
  }

  // ----- the second round ----------------------------------------------------------------

  /** The update carries the configuration. */
  predicate Carries(u: Update, c: Config) {
    ConfigIn(u) == c
  }

  ghost predicate Willing(crypto: Crypto, s: Node, c: Config) {
    s.takesConfigs && Checks(crypto, c.data, c.signature, s.keys)
  }

  /** x has the version of c, or h has c, everything h has announced since then carries c, and x has
      yet to get it. */
  ghost predicate OnItsWay(base: map<IP, Version>, net: Net, h: IP, x: IP, c: Config) {
    && h in net.nodes && x in net.nodes && h != x
    && (net.nodes[x].config.version >= c.version ||
        (&& net.nodes[h].config == c
         && (forall u :: u in net.history && u.origin == h && Since(base, h, u.version) ==> Carries(u, c))
         && !(Holds(net.nodes[x], h) && Since(base, h, HeldVersion(net.nodes[x], h)))))
  }

  /** A holder that has heard from a node that is behind sends the configuration along. */
  lemma HolderSends(crypto: Crypto, first: map<IP, Version>, net: Net, h: IP, x: IP, conns: Conns)
    requires Honest(crypto, first, net) && HasHeard(first, net, h, x)
    requires x in net.nodes && net.nodes[x].config.version < net.nodes[h].config.version
    ensures Carries(GenerateUpdate(net.nodes[h], conns), net.nodes[h].config)
  {
    HeardIsTrue(crypto, first, net, h, x);
    GeneratedCarries(net.nodes[h], conns);
  }

  /** A willing node that gets it adopts it. */
  lemma ReceiverAdopts(crypto: Crypto, net: Net, step: Step, c: Config)
    requires ConfigsDated(crypto, net) && Authentic(net) && Enabled(net, step) && step.Deliver? && step.stored
    requires Accepts(net.nodes[step.packet.dst], step.packet.update) && Carries(step.packet.update, c)
    requires Willing(crypto, net.nodes[step.packet.dst], c) && c.data != [] && c.signature != []
    ensures Apply(crypto, net, step).nodes[step.packet.dst].config.version >= c.version
  {
    AdoptionExactly(crypto, net, step);
    assert DatedUpdate(crypto, step.packet.update);
  }

  /** The setting of the second round: c is a newest of the configurations there are, h and x are
      within reach of u, h has heard from x in the first round, and x would take c. */
  ghost predicate Round(crypto: Crypto, first: map<IP, Version>, net: Net, u: IP, h: IP, x: IP, c: Config,
                        configs: set<Config>) {
    && Honest(crypto, first, net) && Symmetric(net) && Among(net, u, configs)
    && (forall d :: d in configs ==> d.version <= c.version)
    && h in Reach(net, u) && x in Reach(net, u) && HasHeard(first, net, h, x)
    && Willing(crypto, net.nodes[x], c) && c.data != [] && c.signature != []
  }

  lemma KeysStay(crypto: Crypto, s: Node, step: Step)
    ensures NodeAfter(crypto, s, step).keys == s.keys && NodeAfter(crypto, s, step).takesConfigs == s.takesConfigs
  {
  }

  lemma StepKeepsSymmetric(crypto: Crypto, net: Net, step: Step)
    requires Symmetric(net) && Enabled(net, step) && Static(step)
    ensures Symmetric(Apply(crypto, net, step))
  {
    StaticKeepsGraph(crypto, net, step);
    SameGraphSymmetric(net, Apply(crypto, net, step));
  }

  lemma StepKeepsRound(crypto: Crypto, first: map<IP, Version>, net: Net, step: Step, u: IP, h: IP, x: IP, c: Config,
                       configs: set<Config>)
    requires Round(crypto, first, net, u, h, x, c, configs) && Enabled(net, step) && Spreads(step)
    ensures Round(crypto, first, Apply(crypto, net, step), u, h, x, c, configs)
  {
    StepKeepsHonest(crypto, first, net, step);
    StepKeepsSymmetric(crypto, net, step);
    StepKeepsAmong(crypto, net, step, u, configs);
    StepKeepsReach(crypto, net, step, u);
    StepKeepsHeard(crypto, first, net, step, h, x);
    KeysStay(crypto, net.nodes[Actor(step)], step);
  }

  /** The holder of a newest configuration keeps it. */
  lemma HolderKeeps(crypto: Crypto, net: Net, step: Step, u: IP, h: IP, c: Config, configs: set<Config>)
    requires Authentic(net) && ConfigsDated(crypto, net) && Among(net, u, configs)
    requires forall d :: d in configs ==> d.version <= c.version
    requires h in Reach(net, u) && net.nodes[h].config == c && Enabled(net, step) && Spreads(step)
    ensures Apply(crypto, net, step).nodes[h].config == c
  {
    if h == Actor(step) {
      NextConfig(crypto, net, step);
      if step.Deliver? {
        AdoptionIncreases(crypto, net, step);
      }
    }
  }

  lemma LoggedCarries(crypto: Crypto, first: map<IP, Version>, net: Net, step: Step, h: IP, x: IP, c: Config, v: Update)
    requires Honest(crypto, first, net) && HasHeard(first, net, h, x) && x in net.nodes && Enabled(net, step)
    requires net.nodes[h].config == c && net.nodes[x].config.version < c.version
    requires v in Logged(net.nodes[Actor(step)], step) && v.origin == h
    ensures Carries(v, c)
  {
    assert AuthenticNode(net, Actor(step), net.nodes[Actor(step)]);
    HolderSends(crypto, first, net, h, x, step.conns);
  }

  /** x gets its first update from h since then and reaches the version, or still waits for it. */
  lemma WaitsOrReaches(crypto: Crypto, base: map<IP, Version>, net: Net, step: Step, h: IP, x: IP, c: Config)
    requires Authentic(net) && ConfigsDated(crypto, net) && Enabled(net, step) && Spreads(step)
    requires OnItsWay(base, net, h, x, c) && net.nodes[x].config.version < c.version
    requires Willing(crypto, net.nodes[x], c) && c.data != [] && c.signature != []
    ensures var next := Apply(crypto, net, step);
            || next.nodes[x].config.version >= c.version
            || !(Holds(next.nodes[x], h) && Since(base, h, HeldVersion(next.nodes[x], h)))
  {
    if x == Actor(step) && Learns(net.nodes[x], step, h) {
      DeliveredCarries(base, net, step, h, x, c);
      LearnsOrReaches(crypto, base, net, step, h, c);
    } else {
      StillWaits(crypto, base, net, step, h, x);
    }
  }

  lemma DeliveredCarries(base: map<IP, Version>, net: Net, step: Step, h: IP, x: IP, c: Config)
    requires Authentic(net) && Enabled(net, step) && OnItsWay(base, net, h, x, c)
    requires net.nodes[x].config.version < c.version && x == Actor(step) && Learns(net.nodes[x], step, h)
    ensures step.Deliver? && (Since(base, h, step.packet.update.version) ==> Carries(step.packet.update, c))
  {
    assert AuthenticNode(net, x, net.nodes[x]);
  }

  lemma StillWaits(crypto: Crypto, base: map<IP, Version>, net: Net, step: Step, h: IP, x: IP)
    requires Authentic(net) && Enabled(net, step) && Static(step) && x in net.nodes
    requires !(Holds(net.nodes[x], h) && Since(base, h, HeldVersion(net.nodes[x], h)))
    requires !(x == Actor(step) && Learns(net.nodes[x], step, h))
    ensures var t := Apply(crypto, net, step).nodes[x];
            !(Holds(t, h) && Since(base, h, HeldVersion(t, h)))
  {
    assert AuthenticNode(net, x, net.nodes[x]);
    if x == Actor(step) {
      UnlearnedIsUnchanged(crypto, net.nodes[x], step, h);
    }
  }

  lemma LearnsOrReaches(crypto: Crypto, base: map<IP, Version>, net: Net, step: Step, h: IP, c: Config)
    requires Authentic(net) && ConfigsDated(crypto, net) && Enabled(net, step) && Spreads(step) && step.Deliver?
    requires Learns(net.nodes[step.packet.dst], step, h)
    requires Since(base, h, step.packet.update.version) ==> Carries(step.packet.update, c)
    requires Willing(crypto, net.nodes[step.packet.dst], c) && c.data != [] && c.signature != []
    ensures var t := Apply(crypto, net, step).nodes[step.packet.dst];
            t.config.version >= c.version || !(Holds(t, h) && Since(base, h, HeldVersion(t, h)))
  {
    if Since(base, h, step.packet.update.version) {
      ReceiverAdopts(crypto, net, step, c);
    } else {
      assert AuthenticNode(net, step.packet.dst, net.nodes[step.packet.dst]);
      LearnedVersion(crypto, net.nodes[step.packet.dst], step, h);
    }
  }

  lemma LearnedVersion(crypto: Crypto, s: Node, step: Step, o: IP)
    requires step.Deliver? && Learns(s, step, o) && o != s.addr
    ensures var t := NodeAfter(crypto, s, step);
            t.addr == s.addr && o in t.known && t.known[o].version == step.packet.update.version
  {
  }

  lemma StepKeepsOnItsWay(crypto: Crypto, first: map<IP, Version>, base: map<IP, Version>, net: Net, step: Step, u: IP,
                          h: IP, x: IP, c: Config, configs: set<Config>)
    requires Round(crypto, first, net, u, h, x, c, configs) && OnItsWay(base, net, h, x, c)
    requires Enabled(net, step) && Spreads(step)
    ensures OnItsWay(base, Apply(crypto, net, step), h, x, c)
  {
    var next := Apply(crypto, net, step);
    SpreadMovesForward(crypto, net, step, x);
    if net.nodes[x].config.version < c.version {
      HolderKeeps(crypto, net, step, u, h, c, configs);
      forall v | v in next.history && v.origin == h && Since(base, h, v.version) ensures Carries(v, c) {
        if v !in net.history {
          LoggedCarries(crypto, first, net, step, h, x, c, v);
        }
      }
      WaitsOrReaches(crypto, base, net, step, h, x, c);
    }
  }

  lemma {:induction false} RunKeepsOnItsWay(crypto: Crypto, first: map<IP, Version>, base: map<IP, Version>, net: Net,
                                            steps: seq<Step>, u: IP, h: IP, x: IP, c: Config, configs: set<Config>)
    requires Round(crypto, first, net, u, h, x, c, configs) && OnItsWay(base, net, h, x, c)
    requires SpreadRun(crypto, net, steps)
    ensures Round(crypto, first, Exec(crypto, net, steps), u, h, x, c, configs)
    ensures OnItsWay(base, Exec(crypto, net, steps), h, x, c)
    decreases steps
  {
    if steps != [] {
      StepKeepsRound(crypto, first, net, steps[0], u, h, x, c, configs);
      StepKeepsOnItsWay(crypto, first, base, net, steps[0], u, h, x, c, configs);
      RunKeepsOnItsWay(crypto, first, base, Apply(crypto, net, steps[0]), steps[1..], u, h, x, c, configs);
    }
  }

  lemma {:induction false} RunKeepsAmong(crypto: Crypto, net: Net, steps: seq<Step>, u: IP, configs: set<Config>)
    requires Authentic(net) && ConfigsDated(crypto, net) && Symmetric(net) && Among(net, u, configs)
    requires SpreadRun(crypto, net, steps)
    ensures Among(Exec(crypto, net, steps), u, configs)
    decreases steps
  {
    if steps != [] {
      StepKeepsAuthentic(crypto, net, steps[0]);
      StepKeepsDated(crypto, net, steps[0]);
      StepKeepsSymmetric(crypto, net, steps[0]);
      StepKeepsAmong(crypto, net, steps[0], u, configs);
      RunKeepsAmong(crypto, Apply(crypto, net, steps[0]), steps[1..], u, configs);
    }
  }

  // ----- both rounds ---------------------------------------------------------------------

  /** Nothing is on its way to the nodes within reach of u, and all of them have announced
      themselves since then. */
  ghost predicate RoundDone(base: map<IP, Version>, net: Net, u: IP) {
    Drained(net, u) && forall n :: n in Reach(net, u) ==> Since(base, n, Clock(net.nodes[n]))
  }

  /** No node within reach of u has a newer configuration than h. */
  ghost predicate HasNewest(net: Net, u: IP, h: IP) {
    && h in Reach(net, u)
    && forall n :: n in Reach(net, u) ==> net.nodes[n].config.version <= net.nodes[h].config.version
  }

  /** Every willing node within reach has the version of every newest configuration with data and
      signature. */
  ghost predicate AllHaveNewest(crypto: Crypto, net: Net, u: IP) {
    forall h, x :: MustAgree(crypto, net, u, h, x) ==> net.nodes[x].config.version == net.nodes[h].config.version
  }

  ghost predicate MustAgree(crypto: Crypto, net: Net, u: IP, h: IP, x: IP) {
    && HasNewest(net, u, h) && x in Reach(net, u) && Willing(crypto, net.nodes[x], net.nodes[h].config)
    && net.nodes[h].config.data != [] && net.nodes[h].config.signature != []
  }

  ghost function ConfigsOf(net: Net, u: IP): set<Config> {
    set n | n in Reach(net, u) :: net.nodes[n].config
  }

  lemma ReachSymmetric(net: Net, u: IP, x: IP, y: IP)
    requires Authentic(net) && Symmetric(net) && x in Reach(net, u) && y in Reach(net, u)
    ensures Joined(net, x, y)
  {
    SymmetricJoined(net, u, x);
    JoinedTransitive(net, x, u, y);
  }

  /** After the first round everyone has heard from everyone. */
  lemma AllHeard(base: map<IP, Version>, net: Net, u: IP, h: IP, x: IP)
    requires Flowing(base, net) && Symmetric(net) && RoundDone(base, net, u)
    requires h in Reach(net, u) && x in Reach(net, u) && h != x
    ensures HasHeard(base, net, h, x)
  {
    ReachSymmetric(net, u, x, h);
    DrainedFrom(net, u, x);
    QuiescentAgreement(base, net, h, x);
  }

  lemma DrainedAmong(net: Net, u: IP)
    requires Drained(net, u)
    ensures Among(net, u, ConfigsOf(net, u))
  {
  }

  /** Nothing has been announced since the second round began. */
  lemma SecondRoundBegins(net: Net, u: IP, h: IP, x: IP)
    requires Authentic(net) && h in Reach(net, u) && x in Reach(net, u) && h != x
    ensures OnItsWay(Clocks(net), net, h, x, net.nodes[h].config)
  {
    if Holds(net.nodes[x], h) {
      HeldIsBounded(net, x, h);
    }
  }

  /** At the end of the second round x has got it. */
  lemma SecondRoundEnds(base: map<IP, Version>, net: Net, u: IP, h: IP, x: IP, c: Config)
    requires Flowing(base, net) && Symmetric(net) && RoundDone(base, net, u) && OnItsWay(base, net, h, x, c)
    requires h in Reach(net, u) && x in Reach(net, u)
    ensures net.nodes[x].config.version >= c.version
  {
    ReachSymmetric(net, u, h, x);
    DrainedFrom(net, u, h);
    QuiescentAgreement(base, net, x, h);
    assert AuthenticNode(net, x, net.nodes[x]);
  }

  /** The second round, for a configuration that is a newest one when it begins. */
  lemma SecondRound(crypto: Crypto, first: map<IP, Version>, net: Net, steps: seq<Step>, u: IP, h: IP, x: IP)
    requires Honest(crypto, first, net) && Flowing(first, net) && Symmetric(net) && RoundDone(first, net, u)
    requires SpreadRun(crypto, net, steps) && RoundDone(Clocks(net), Exec(crypto, net, steps), u)
    requires MustAgree(crypto, net, u, h, x) && h != x
    ensures x in Exec(crypto, net, steps).nodes
    ensures Exec(crypto, net, steps).nodes[x].config.version >= net.nodes[h].config.version
  {
    var c, end := net.nodes[h].config, Exec(crypto, net, steps);
    AllHeard(first, net, u, h, x);
    DrainedAmong(net, u);
    assert Round(crypto, first, net, u, h, x, c, ConfigsOf(net, u));
    SecondRoundBegins(net, u, h, x);
    RunKeepsOnItsWay(crypto, first, Clocks(net), net, steps, u, h, x, c, ConfigsOf(net, u));
    AuthenticFlows(net);
    SpreadRunIsStatic(crypto, net, steps);
    StaticRunFlows(crypto, Clocks(net), net, steps);
    SecondRoundEnds(Clocks(net), end, u, h, x, c);
  }

  /** A newest configuration at the end was one of somebody's when the second round began. */
  lemma NewestWasThere(crypto: Crypto, net: Net, steps: seq<Step>, u: IP, h: IP) returns (g: IP)
    requires Authentic(net) && ConfigsDated(crypto, net) && Symmetric(net) && Drained(net, u)
    requires SpreadRun(crypto, net, steps) && HasNewest(Exec(crypto, net, steps), u, h)
    ensures HasNewest(net, u, g) && net.nodes[g].config == Exec(crypto, net, steps).nodes[h].config
  {
    var end := Exec(crypto, net, steps);
    g := ConfigWasThere(crypto, net, steps, u, h);
    SpreadKeepsReach(crypto, net, steps, u);
    NothingSince(net);
    RunKeepsHonest(crypto, Clocks(net), net, steps);
    NewestBefore(net, end, u, h, g);
  }

  lemma ConfigWasThere(crypto: Crypto, net: Net, steps: seq<Step>, u: IP, h: IP) returns (g: IP)
    requires Authentic(net) && ConfigsDated(crypto, net) && Symmetric(net) && Drained(net, u)
    requires SpreadRun(crypto, net, steps) && h in Reach(Exec(crypto, net, steps), u)
    ensures g in Reach(net, u) && net.nodes[g].config == Exec(crypto, net, steps).nodes[h].config
  {
    DrainedAmong(net, u);
    RunKeepsAmong(crypto, net, steps, u, ConfigsOf(net, u));
    assert Exec(crypto, net, steps).nodes[h].config in ConfigsOf(net, u);
    g :| g in Reach(net, u) && net.nodes[g].config == Exec(crypto, net, steps).nodes[h].config;
  }

  lemma NewestBefore(net: Net, end: Net, u: IP, h: IP, g: IP)
    requires Reach(net, u) == Reach(end, u) && HasNewest(end, u, h)
    requires forall n :: n in net.nodes ==> n in end.nodes && end.nodes[n].config.version >= net.nodes[n].config.version
    requires g in Reach(net, u) && net.nodes[g].config == end.nodes[h].config
    ensures HasNewest(net, u, g)
  {
  }

  lemma SpreadKeepsReach(crypto: Crypto, net: Net, steps: seq<Step>, u: IP)
    requires Authentic(net) && SpreadRun(crypto, net, steps)
    ensures Reach(Exec(crypto, net, steps), u) == Reach(net, u)
    ensures SessionGraph(Exec(crypto, net, steps)) == SessionGraph(net)
    ensures Exec(crypto, net, steps).nodes.Keys == net.nodes.Keys
  {
    AuthenticFlows(net);
    SpreadRunIsStatic(crypto, net, steps);
    StaticRunFlows(crypto, Clocks(net), net, steps);
    RunKeepsNodes(crypto, net, steps);
    SameReach(net, Exec(crypto, net, steps), u);
  }

  lemma {:induction false} RunKeepsKeys(crypto: Crypto, net: Net, steps: seq<Step>, n: IP)
    requires IsRun(crypto, net, steps) && n in net.nodes
    ensures n in Exec(crypto, net, steps).nodes
    ensures Exec(crypto, net, steps).nodes[n].keys == net.nodes[n].keys
    ensures Exec(crypto, net, steps).nodes[n].takesConfigs == net.nodes[n].takesConfigs
    decreases steps
  {
    if steps != [] {
      KeysStay(crypto, net.nodes[Actor(steps[0])], steps[0]);
      RunKeepsKeys(crypto, Apply(crypto, net, steps[0]), steps[1..], n);
    }
  }

  lemma SecondRoundSpreads(crypto: Crypto, first: map<IP, Version>, net: Net, steps: seq<Step>, u: IP)
    requires Honest(crypto, first, net) && Flowing(first, net) && Symmetric(net) && RoundDone(first, net, u)
    requires SpreadRun(crypto, net, steps) && RoundDone(Clocks(net), Exec(crypto, net, steps), u)
    ensures AllHaveNewest(crypto, Exec(crypto, net, steps), u)
  {
    var end := Exec(crypto, net, steps);
    SpreadKeepsReach(crypto, net, steps, u);
    forall h, x | MustAgree(crypto, end, u, h, x) ensures end.nodes[x].config.version == end.nodes[h].config.version {
      var g := NewestWasThere(crypto, net, steps, u, h);
      RunKeepsKeys(crypto, net, steps, x);
      if g == x {
        NothingSince(net);
        RunKeepsHonest(crypto, Clocks(net), net, steps);
      } else {
        SecondRound(crypto, first, net, steps, u, g, x);
      }
    }
  }

  /** Configurations spread, in every run: take any state that can come about, with symmetric
      sessions, and two rounds in which, in any order, the nodes announce, deliver, recalculate and
      change external routes.  If after each round all nodes within reach have announced themselves
      in it and nothing is on its way to them, then every one of them that takes configurations and
      accepts the signature of a newest configuration has its version, and none has gone back. */
  lemma ConfigsSpread(crypto: Crypto, net: Net, first: seq<Step>, second: seq<Step>, u: IP)
    requires Authentic(net) && ConfigsDated(crypto, net) && Symmetric(net)
    requires SpreadRun(crypto, net, first) && RoundDone(Clocks(net), Exec(crypto, net, first), u)
    requires SpreadRun(crypto, Exec(crypto, net, first), second)
    requires RoundDone(Clocks(Exec(crypto, net, first)), Exec(crypto, Exec(crypto, net, first), second), u)
    ensures AllHaveNewest(crypto, Exec(crypto, Exec(crypto, net, first), second), u)
    ensures forall n :: n in net.nodes ==>
              && n in Exec(crypto, Exec(crypto, net, first), second).nodes
              && Exec(crypto, Exec(crypto, net, first), second).nodes[n].config.version >= net.nodes[n].config.version
  {
    var mid := Exec(crypto, net, first);
    NothingSince(net);
    RunKeepsHonest(crypto, Clocks(net), net, first);
    AuthenticFlows(net);
    SpreadRunIsStatic(crypto, net, first);
    StaticRunFlows(crypto, Clocks(net), net, first);
    SameGraphSymmetric(net, mid);
    SecondRoundSpreads(crypto, Clocks(net), mid, second, u);
    RunKeepsHonest(crypto, Clocks(net), mid, second);
  }

  // ----- every network can do it ---------------------------------------------------------

  lemma BenignSpreads(crypto: Crypto, net: Net, steps: seq<Step>, end: Net)
    requires Leads(crypto, net, steps, end)
    ensures SpreadRun(crypto, net, steps)
  {
  }

  lemma AnnouncedRoundDone(base: map<IP, Version>, net: Net, u: IP)
    requires net.inflight == multiset{} && Announced(base, net, net.nodes.Keys)
    ensures RoundDone(base, net, u)
  {
    forall n | n in Reach(net, u) ensures Since(base, n, Clock(net.nodes[n])) {
      assert UpToDate(base, n, net.nodes[n]);
    }
  }

  /** After any run whatever of the full system, if sessions are then symmetric, announcing,
      delivering and storing lead to a state in which all who would have a newest configuration
      have its version. */
  lemma EveryConfigCanSpread(crypto: Crypto, net: Net, before: seq<Step>) returns (steps: seq<Step>, end: Net)
    requires Init(net) && forall n :: n in net.nodes ==> DatedConfig(crypto, net.nodes[n].config)
    requires DatedRun(crypto, net, before) && Symmetric(Exec(crypto, net, before))
    ensures Leads(crypto, Exec(crypto, net, before), steps, end)
    ensures forall u :: AllHaveNewest(crypto, end, u)
  {
    var start := Exec(crypto, net, before);
    InitIsAuthentic(net);
    RunKeepsAuthentic(crypto, net, before);
    RunKeepsDated(crypto, net, before);
    var a, mid := AnnounceAndDrain(crypto, start);
    RunKeepsAuthentic(crypto, start, a);
    var b, last := AnnounceAndDrain(crypto, mid);
    LeadsOn(crypto, start, a, mid, b, last);
    steps, end := a + b, last;
    forall u ensures AllHaveNewest(crypto, end, u) {
      TwoRounds(crypto, start, a, mid, b, end, u);
    }
  }

  lemma TwoRounds(crypto: Crypto, net: Net, a: seq<Step>, mid: Net, b: seq<Step>, end: Net, u: IP)
    requires Authentic(net) && ConfigsDated(crypto, net) && Symmetric(net)
    requires Leads(crypto, net, a, mid) && mid.inflight == multiset{} && Announced(Clocks(net), mid, mid.nodes.Keys)
    requires Leads(crypto, mid, b, end) && end.inflight == multiset{} && Announced(Clocks(mid), end, end.nodes.Keys)
    ensures AllHaveNewest(crypto, end, u)
  {
    BenignSpreads(crypto, net, a, mid);
    BenignSpreads(crypto, mid, b, end);
    AnnouncedRoundDone(Clocks(net), mid, u);
    AnnouncedRoundDone(Clocks(mid), end, u);
    ConfigsSpread(crypto, net, a, b, u);
  }
}
