/** The configuration that rides on routing updates: versions always belong to the data they
    travel with, adoption moves forward, and what convergence means. */
module ConfigCoherence {
  import opened Address
  import opened Optional
  import opened Node
  import opened Flood

  /** No configuration yet, or one whose version is the LastUpdated of its data. */
  predicate DatedConfig(crypto: Crypto, c: Config) {
    c == NoConfig || Dated(crypto, c.version, c.data)
  }

  predicate DatedUpdate(crypto: Crypto, u: Update) {
    u.configData != [] ==> Dated(crypto, u.configVersion, u.configData)
  }

  /** A node starts with the configuration of its own files. */
  ghost predicate DatedStep(crypto: Crypto, step: Step) {
    step.Restart? ==> DatedConfig(crypto, step.config)
  }

  ghost predicate ConfigsDated(crypto: Crypto, net: Net) {
    && (forall n :: n in net.nodes ==> DatedConfig(crypto, net.nodes[n].config))
    && (forall u :: u in net.history ==> DatedUpdate(crypto, u))
  }

  lemma ActorConfigDated(crypto: Crypto, s: Node, step: Step)
    requires DatedConfig(crypto, s.config) && DatedStep(crypto, step)
    ensures DatedConfig(crypto, NodeAfter(crypto, s, step).config)
  {
  }

  lemma LoggedIsDated(crypto: Crypto, s: Node, step: Step, u: Update)
    requires DatedConfig(crypto, s.config) && u in Logged(s, step)
    ensures DatedUpdate(crypto, u)
  {
  }

  /** At every node, and in every update that carries data, the version stays the LastUpdated
      of the data. */
  lemma StepKeepsDated(crypto: Crypto, net: Net, step: Step)
    requires ConfigsDated(crypto, net) && Enabled(net, step) && DatedStep(crypto, step)
    ensures ConfigsDated(crypto, Apply(crypto, net, step))
  {
    var next := Apply(crypto, net, step);
    var s := net.nodes[Actor(step)];
    forall n | n in next.nodes ensures DatedConfig(crypto, next.nodes[n].config) {
      if n == Actor(step) {
        ActorConfigDated(crypto, s, step);
      }
    }
    forall u | u in next.history ensures DatedUpdate(crypto, u) {
      if u !in net.history {
        LoggedIsDated(crypto, s, step, u);
      }
    }
  }

  ghost predicate DatedRun(crypto: Crypto, net: Net, steps: seq<Step>) {
    IsRun(crypto, net, steps) && forall i :: 0 <= i < |steps| ==> DatedStep(crypto, steps[i])
  }

  lemma {:induction false} RunKeepsDated(crypto: Crypto, net: Net, steps: seq<Step>)
    requires ConfigsDated(crypto, net) && DatedRun(crypto, net, steps)
    ensures ConfigsDated(crypto, Exec(crypto, net, steps))
    decreases steps
  {
    if steps != [] {
      StepKeepsDated(crypto, net, steps[0]);
      RunKeepsDated(crypto, Apply(crypto, net, steps[0]), steps[1..]);
    }
  }

  /** So it is in every state that can come about, under loss, restarts and operators that set
      nodes back, if nodes start from their own files. */
  lemma ConfigsAlwaysDated(crypto: Crypto, net: Net, steps: seq<Step>)
    requires Init(net) && forall n :: n in net.nodes ==> DatedConfig(crypto, net.nodes[n].config)
    requires DatedRun(crypto, net, steps)
    ensures ConfigsDated(crypto, Exec(crypto, net, steps))
  {
    RunKeepsDated(crypto, net, steps);
  }

  // ----- versions only move forward ------------------------------------------------------

  /** Operators publish newer configurations only, and nodes are not restarted. */
  ghost predicate Forward(crypto: Crypto, net: Net, step: Step)
    requires Enabled(net, step)
  {
    && !step.Restart?
    && (step.Operator? && crypto.parse(step.data).Some? ==>
          crypto.parse(step.data).value.lastUpdated >= net.nodes[step.n].config.version)
  }

  ghost predicate ForwardRun(crypto: Crypto, net: Net, steps: seq<Step>): (forward: bool)
    ensures forward ==> IsRun(crypto, net, steps)
    decreases steps
  {
    steps == [] ||
    (Enabled(net, steps[0]) && Forward(crypto, net, steps[0]) &&
      ForwardRun(crypto, Apply(crypto, net, steps[0]), steps[1..]))
  }

  /** A configuration adopted from an update is strictly newer than the one it replaces. */
  lemma AdoptionIncreases(crypto: Crypto, net: Net, step: Step)
    requires Authentic(net) && ConfigsDated(crypto, net) && Enabled(net, step) && step.Deliver?
    ensures var s := net.nodes[step.packet.dst]; var t := Apply(crypto, net, step).nodes[step.packet.dst];
            t.config != s.config ==> t.config.version == step.packet.update.configVersion > s.config.version
  {
    assert DatedUpdate(crypto, step.packet.update);
  }

  /** An update makes the receiver's configuration the update's exactly when it is accepted, the
      receiver has a function for configurations, the update has data and signature, claims a newer
      version, the signature checks and the files can be stored.  Otherwise nothing changes. */
  lemma AdoptionExactly(crypto: Crypto, net: Net, step: Step)
    requires Enabled(net, step) && step.Deliver?
    ensures var s := net.nodes[step.packet.dst]; var t := Apply(crypto, net, step).nodes[step.packet.dst];
            var u := step.packet.update;
            if && Accepts(s, u) && s.takesConfigs && |u.configData| > 0 && |u.configSignature| > 0
               && u.configVersion > s.config.version && step.stored
               && Checks(crypto, u.configData, u.configSignature, s.keys)
            then crypto.parse(u.configData).Some?
                 && t.config == Config(crypto.parse(u.configData).value.lastUpdated, u.configData, u.configSignature)
            else t.config == s.config
  {
  }

  /** An operator's configuration, of any version, is adopted exactly when it checks and is stored,
      and no other step but a restart touches a configuration. */
  lemma OperatorExactly(crypto: Crypto, s: Node, step: Step)
    ensures var t := NodeAfter(crypto, s, step);
            match step
            case Operator(_, data, signature, stored) =>
              if Checks(crypto, data, signature, s.keys) && stored
              then crypto.parse(data).Some? && t.config == Config(crypto.parse(data).value.lastUpdated, data, signature)
              else t == s
            case Deliver(_, _) => true
            case Restart(_, _, config) => t.config == config && t.keys == s.keys && t.takesConfigs == s.takesConfigs
            case _ => t.config == s.config
  {
  }

  // ----- signatures ----------------------------------------------------------------------

  /** The configurations that nodes were restarted with. */
  function FilesIn(steps: seq<Step>): set<Config> {
    if steps == [] then {} else (if steps[0].Restart? then {steps[0].config} else {}) + FilesIn(steps[1..])
  }

  /** Every configuration is from a node's own files or carries a signature that checks. */
  ghost predicate AllSigned(crypto: Crypto, net: Net, files: set<Config>) {
    forall n :: n in net.nodes ==> IsSigned(crypto, net.nodes[n], files)
  }

  ghost predicate IsSigned(crypto: Crypto, s: Node, files: set<Config>) {
    s.config in files || Checks(crypto, s.config.data, s.config.signature, s.keys)
  }

  lemma StepKeepsSigned(crypto: Crypto, net: Net, step: Step, files: set<Config>)
    requires AllSigned(crypto, net, files) && Enabled(net, step)
    ensures AllSigned(crypto, Apply(crypto, net, step), files + if step.Restart? then {step.config} else {})
  {
    var s := net.nodes[Actor(step)];
    var next := Apply(crypto, net, step);
    var more := files + if step.Restart? then {step.config} else {};
    OperatorExactly(crypto, s, step);
    if step.Deliver? {
      AdoptionExactly(crypto, net, step);
    }
    assert NodeAfter(crypto, s, step).keys == s.keys;
    forall n | n in next.nodes ensures IsSigned(crypto, next.nodes[n], more) {
      assert IsSigned(crypto, net.nodes[n], files);
    }
  }

  lemma {:induction false} RunKeepsSigned(crypto: Crypto, net: Net, steps: seq<Step>, files: set<Config>)
    requires AllSigned(crypto, net, files) && IsRun(crypto, net, steps)
    ensures AllSigned(crypto, Exec(crypto, net, steps), files + FilesIn(steps))
    decreases steps
  {
    if steps == [] {
      assert files + FilesIn(steps) == files;
    } else {
      var more := files + if steps[0].Restart? then {steps[0].config} else {};
      StepKeepsSigned(crypto, net, steps[0], files);
      RunKeepsSigned(crypto, Apply(crypto, net, steps[0]), steps[1..], more);
      assert more + FilesIn(steps[1..]) == files + FilesIn(steps);
    }
  }

  /** In every state that can come about, a node's configuration is one that some node had in its
      files at a start, or carries a signature that checks under the node's own keys. */
  lemma ConfigsAlwaysSigned(crypto: Crypto, net: Net, steps: seq<Step>)
    requires IsRun(crypto, net, steps)
    ensures AllSigned(crypto, Exec(crypto, net, steps),
                      (set n | n in net.nodes :: net.nodes[n].config) + FilesIn(steps))
  {
    RunKeepsSigned(crypto, net, steps, set n | n in net.nodes :: net.nodes[n].config);
  }

  // ----- how versions move ---------------------------------------------------------------

  lemma StepMovesForward(crypto: Crypto, net: Net, step: Step, n: IP)
    requires Authentic(net) && ConfigsDated(crypto, net) && Enabled(net, step) && Forward(crypto, net, step)
    requires n in net.nodes
    ensures Apply(crypto, net, step).nodes[n].config.version >= net.nodes[n].config.version
  {
    if step.Deliver? {
      AdoptionIncreases(crypto, net, step);
    }
  }

  /** No update claims a newer configuration than its origin has. */
  ghost predicate ClaimsBounded(net: Net) {
    forall u :: u in net.history ==> u.origin in net.nodes && u.configVersion <= net.nodes[u.origin].config.version
  }

  lemma StepKeepsClaims(crypto: Crypto, net: Net, step: Step)
    requires Authentic(net) && ConfigsDated(crypto, net) && ClaimsBounded(net) && Enabled(net, step)
    requires Forward(crypto, net, step)
    ensures ClaimsBounded(Apply(crypto, net, step))
  {
    var next := Apply(crypto, net, step);
    var s := net.nodes[Actor(step)];
    assert AuthenticNode(net, Actor(step), s);
    forall u | u in next.history
      ensures u.origin in next.nodes && u.configVersion <= next.nodes[u.origin].config.version
    {
      if u in net.history {
        StepMovesForward(crypto, net, step, u.origin);
      } else {
        assert u == GenerateUpdate(s, step.conns);
      }
    }
  }

  /** The invariant of forward runs. */
  ghost predicate ConfigsCoherent(crypto: Crypto, net: Net) {
    Authentic(net) && ConfigsDated(crypto, net) && ClaimsBounded(net)
  }

  lemma {:induction false} ForwardRunCoherent(crypto: Crypto, net: Net, steps: seq<Step>)
    requires ConfigsCoherent(crypto, net) && ForwardRun(crypto, net, steps)
    ensures ConfigsCoherent(crypto, Exec(crypto, net, steps))
    ensures forall n :: n in net.nodes ==>
              n in Exec(crypto, net, steps).nodes &&
                Exec(crypto, net, steps).nodes[n].config.version >= net.nodes[n].config.version
    decreases steps
  {
    if steps != [] {
      var next := Apply(crypto, net, steps[0]);
      StepKeepsAuthentic(crypto, net, steps[0]);
      StepKeepsDated(crypto, net, steps[0]);
      StepKeepsClaims(crypto, net, steps[0]);
      forall n | n in net.nodes ensures n in next.nodes && next.nodes[n].config.version >= net.nodes[n].config.version {
        StepMovesForward(crypto, net, steps[0], n);
      }
      ForwardRunCoherent(crypto, next, steps[1..]);
    }
  }

  /** What a node knows about another's configuration version is a lower bound of the truth. */
  lemma KnownVersionIsReal(crypto: Crypto, net: Net, n: IP, o: IP)
    requires ConfigsCoherent(crypto, net) && n in net.nodes && o in net.nodes[n].known
    ensures o in net.nodes && net.nodes[n].known[o].configVersion <= net.nodes[o].config.version
  {
    var s := net.nodes[n];
    assert AuthenticNode(net, n, s);
    assert Holds(s, o);
    var u :| u in net.history && IsHeld(s, o, u);
  }

  /** Nodes started from their own files begin coherent. */
  lemma InitIsCoherent(crypto: Crypto, net: Net)
    requires Init(net) && forall n :: n in net.nodes ==> DatedConfig(crypto, net.nodes[n].config)
    ensures ConfigsCoherent(crypto, net)
  {
    InitIsAuthentic(net);
  }

  /** A successful WaitForConfigConvergence, in any run from the start: every node known at that
      moment really has at least the waited-for version, then and for ever after. */
  lemma ConvergenceIsReal(crypto: Crypto, net: Net, before: seq<Step>, after: seq<Step>, n: IP, version: nat, o: IP)
    requires Init(net) && forall x :: x in net.nodes ==> DatedConfig(crypto, net.nodes[x].config)
    requires ForwardRun(crypto, net, before) && ForwardRun(crypto, Exec(crypto, net, before), after)
    requires n in Exec(crypto, net, before).nodes && o in Exec(crypto, net, before).nodes[n].known
    requires ConfigsConverged(Exec(crypto, net, before).nodes[n].known, version)
    ensures var meantime := Exec(crypto, net, before);
            o in meantime.nodes && meantime.nodes[o].config.version >= version
    ensures var later := Exec(crypto, Exec(crypto, net, before), after);
            o in later.nodes && later.nodes[o].config.version >= version
  {
    InitIsCoherent(crypto, net);
    ForwardRunCoherent(crypto, net, before);
    KnownVersionIsReal(crypto, Exec(crypto, net, before), n, o);
    ForwardRunCoherent(crypto, Exec(crypto, net, before), after);
  }

  // ----- exactly how long convergence lasts ----------------------------------------------

  /** Node o has at least the version in this state and in every later one of the run. */
  ghost predicate StaysAtLeast(crypto: Crypto, net: Net, steps: seq<Step>, o: IP, version: nat)
    requires IsRun(crypto, net, steps)
    decreases steps
  {
    && o in net.nodes && net.nodes[o].config.version >= version
    && (steps != [] ==> StaysAtLeast(crypto, Apply(crypto, net, steps[0]), steps[1..], o, version))
  }

  /** The step is an operator's configuration for o which o adopts. */
  ghost predicate Adopts(crypto: Crypto, net: Net, step: Step, o: IP) {
    step.Operator? && step.n == o && step.stored && o in net.nodes &&
      Checks(crypto, step.data, step.signature, net.nodes[o].keys)
  }

  /** Every configuration that an operator gives to o during the run has at least the version. */
  ghost predicate OperatorsKeep(crypto: Crypto, net: Net, steps: seq<Step>, o: IP, version: nat)
    requires IsRun(crypto, net, steps)
    decreases steps
  {
    steps == [] ||
    ((Adopts(crypto, net, steps[0], o) ==> crypto.parse(steps[0].data).value.lastUpdated >= version)
     && OperatorsKeep(crypto, Apply(crypto, net, steps[0]), steps[1..], o, version))
  }

  lemma StepStays(crypto: Crypto, net: Net, step: Step, o: IP, version: nat)
    requires Authentic(net) && ConfigsDated(crypto, net) && Enabled(net, step) && !step.Restart?
    requires o in net.nodes && net.nodes[o].config.version >= version
    ensures Apply(crypto, net, step).nodes[o].config.version >= version
            <==> (Adopts(crypto, net, step, o) ==> crypto.parse(step.data).value.lastUpdated >= version)
  {
    if step.Deliver? {
      AdoptionIncreases(crypto, net, step);
    }
  }

  /** What convergence established lasts exactly as long as operators do not set the node back
      below the version: updates from other nodes never do. */
  lemma {:induction false} ConvergenceLastsExactly(crypto: Crypto, net: Net, steps: seq<Step>, o: IP, version: nat)
    requires Authentic(net) && ConfigsDated(crypto, net) && IsRun(crypto, net, steps)
    requires forall i :: 0 <= i < |steps| ==> !steps[i].Restart?
    requires o in net.nodes && net.nodes[o].config.version >= version
    ensures StaysAtLeast(crypto, net, steps, o, version) <==> OperatorsKeep(crypto, net, steps, o, version)
    decreases steps
  {
    if steps != [] {
      var next := Apply(crypto, net, steps[0]);
      StepStays(crypto, net, steps[0], o, version);
      StepKeepsAuthentic(crypto, net, steps[0]);
      StepKeepsDated(crypto, net, steps[0]);
      if next.nodes[o].config.version >= version {
        ConvergenceLastsExactly(crypto, next, steps[1..], o, version);
      }
    }
  }

  /** Every configuration parses, with its length as its date, and every signature is good. */
  const Lenient: Crypto := Crypto(data => Some(Document(|data|, ["key"])), (data, signature, key) => true)

  /** One node with a configuration of version 2. */
  function OneNode(n: IP): Net {
    Net(map[n := Start(n, 1, None, true, Config(2, [0, 0], []))], multiset{}, {})
  }

  /** The failing input: an operator gives that node a configuration of version 1, and the node
      adopts it. */
  lemma OlderConfigSetsBack(n: IP)
    ensures var steps := [Operator(n, [0], [], true)];
            && IsRun(Lenient, OneNode(n), steps)
            && n in Exec(Lenient, OneNode(n), steps).nodes
            && Exec(Lenient, OneNode(n), steps).nodes[n].config.version == 1 < OneNode(n).nodes[n].config.version
            && !StaysAtLeast(Lenient, OneNode(n), steps, n, 2)
  {
    var step := Operator(n, [0], [], true);
    assert [step][1..] == [];
    assert Lenient.parse([0]) == Some(Document(1, ["key"]));
    assert "key" in ["key"] && Lenient.verify([0], [], "key");
    assert Checks(Lenient, [0], [], None);
  }
}
