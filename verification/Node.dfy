/** One node of the overlay as a value: the state that pkg/netopus/netopus.go keeps for routing
    and configuration, and what each of its operations does to it. */
module Node {
  import opened Address
  import opened Graph
  import opened Optional
  import opened Routes
  import Router

  // ----- configuration -------------------------------------------------------------------

  type Key = string

  /** The part of a parsed configuration that matters here. */
  datatype Document = Document(lastUpdated: nat, authorizedKeys: seq<Key>)

  /** Parsing and SSH signature checking, which are outside this model. */
  datatype Crypto = Crypto(parse: Bytes -> Option<Document>, verify: (Bytes, Bytes, Key) -> bool)

  datatype Config = Config(version: nat, data: Bytes, signature: Bytes)

  const NoConfig := Config(0, [], [])

  /** ParseAndCheckConfig: nil keys stand for the keys inside the configuration itself. */
  ghost predicate Checks(crypto: Crypto, data: Bytes, signature: Bytes, keys: Option<seq<Key>>) {
    && crypto.parse(data).Some?
    && var authorized := if keys.Some? then keys.value else crypto.parse(data).value.authorizedKeys;
       exists k :: k in authorized && crypto.verify(data, signature, k)
  }

  /** The version of a configuration is the LastUpdated of its data. */
  predicate Dated(crypto: Crypto, version: nat, data: Bytes) {
    crypto.parse(data).Some? && crypto.parse(data).value.lastUpdated == version
  }

  // ----- state ---------------------------------------------------------------------------

  /** An update's place in its origin's history: start time, then number since the start. */
  datatype Version = Version(epoch: nat, sequence: nat)

  predicate Newer(a: Version, b: Version) {
    a.epoch > b.epoch || (a.epoch == b.epoch && a.sequence > b.sequence)
  }

  datatype Update = Update(origin: IP, version: Version, conns: Conns, configVersion: nat, configData: Bytes,
                           configSignature: Bytes)

  datatype Known = Known(version: Version, configVersion: nat)

  datatype Route = Route(dest: Subnet, cost: nat)

  datatype Node = Node(
    addr: IP,
    epoch: nat,
    sequence: nat,
    known: map<IP, Known>,
    sessions: map<IP, nat>,
    routes: map<string, Route>,
    router: Router.State,
    keys: Option<seq<Key>>,
    takesConfigs: bool,
    config: Config)

  function Clock(s: Node): Version {
    Version(s.epoch, s.sequence)
  }

  /** takesConfigs says whether the node was given a function for new configurations. */
  function Start(addr: IP, epoch: nat, keys: Option<seq<Key>>, takesConfigs: bool, config: Config): Node {
    Node(addr, epoch, 0, map[], map[], map[], Router.Initial, keys, takesConfigs, config)
  }

  /** 1.0, in units of the smallest positive float32. */
  const UnitCost: nat := 0x20000000000000000000000000000000000000

  function PowerOfTwo(n: nat): nat {
    if n == 0 then 1 else 2 * PowerOfTwo(n - 1)
  }

  lemma {:induction false} PowerOfSum(m: nat, n: nat)
    ensures PowerOfTwo(m + n) == PowerOfTwo(m) * PowerOfTwo(n)
  {
    if m > 0 {
      PowerOfSum(m - 1, n);
      assert 2 * (PowerOfTwo(m - 1) * PowerOfTwo(n)) == PowerOfTwo(m) * PowerOfTwo(n);
    }
  }

  lemma SomePowers()
    ensures PowerOfTwo(16) == 0x10000 && PowerOfTwo(32) == 0x1_0000_0000 && PowerOfTwo(64) == 0x1_0000_0000_0000_0000
  {
    assert PowerOfTwo(4) == 16;
    PowerOfSum(4, 4);
    PowerOfSum(8, 8);
    PowerOfSum(16, 16);
    PowerOfSum(32, 32);
  }

  /** The constants of IEEE 754 binary32 in units of two to the power of minus 149: 1.0 is two to the
      power of 149 units, and the largest number is 2^24 - 1 times two to the power of 104. */
  lemma FloatConstants()
    ensures UnitCost == PowerOfTwo(149)
    ensures MaxCost == 0xffffff * PowerOfTwo(104 + 149)
  {
    SomePowers();
    PowerOfSum(64, 64);
    PowerOfSum(128, 16);
    assert PowerOfTwo(5) == 32;
    PowerOfSum(144, 5);
    PowerOfSum(64, 32);
    assert PowerOfTwo(8) == 256;
    PowerOfSum(96, 8);
    PowerOfSum(104, 149);
  }

  /** A positive cost is kept as given; any other becomes 1.0. */
  function CostOrDefault(cost: int): (c: nat)
    ensures c > 0
    ensures cost > 0 ==> c == cost
    ensures cost <= 0 ==> c == UnitCost
  {
    if cost <= 0 then UnitCost else cost
  }

  // ----- generating updates --------------------------------------------------------------

  /** The connections a node announces: its sessions' peers as host subnets, then its external
      routes over them.  When two routes have one destination, map order picks the cost. */
  ghost predicate Announces(s: Node, conns: Conns) {
    && (forall k :: k in conns ==> HasRoute(s, k, conns[k]) || (!HasDest(s, k) && HasSession(s, k, conns[k])))
    && (forall m :: m in s.sessions ==> HostOnly(m) in conns)
    && (forall name :: name in s.routes ==> s.routes[name].dest in conns)
  }

  ghost predicate HasRoute(s: Node, k: Subnet, cost: int) {
    exists name :: name in s.routes && s.routes[name].dest == k && s.routes[name].cost == cost
  }

  ghost predicate HasDest(s: Node, k: Subnet) {
    exists name :: name in s.routes && s.routes[name].dest == k
  }

  ghost predicate HasSession(s: Node, k: Subnet, cost: int) {
    exists m :: m in s.sessions && k == HostOnly(m) && s.sessions[m] == cost
  }

  lemma SameAnnouncements(s: Node, t: Node, conns: Conns)
    requires Announces(s, conns) && t.sessions == s.sessions && t.routes == s.routes
    ensures Announces(t, conns)
  {
    forall k | k in conns ensures HasRoute(t, k, conns[k]) || (!HasDest(t, k) && HasSession(t, k, conns[k])) {
      assert HasRoute(s, k, conns[k]) || (!HasDest(s, k) && HasSession(s, k, conns[k]));
    }
  }

  predicate ConfigsConverged(known: map<IP, Known>, version: nat) {
    forall o :: o in known ==> known[o].configVersion >= version
  }

  function GenerateUpdate(s: Node, conns: Conns): Update {
    var attach := !ConfigsConverged(s.known, s.config.version);
    Update(s.addr, Version(s.epoch, s.sequence + 1), conns, s.config.version,
           if attach then s.config.data else [], if attach then s.config.signature else [])
  }

  function AfterOriginate(s: Node, conns: Conns): Node {
    s.(sequence := s.sequence + 1, router := Router.AfterUpdate(s.router, s.addr, conns))
  }

  /** What is announced, and at which costs: every session's peer and every route's destination,
      nothing else; a route's destination at the cost of a route to it, and a peer that is no
      route's destination at the cost of its session. */
  lemma AnnouncedExactly(s: Node, conns: Conns)
    requires Announces(s, conns)
    ensures forall k :: k in conns <==> HasDest(s, k) || exists m :: m in s.sessions && k == HostOnly(m)
    ensures forall name :: name in s.routes ==> HasRoute(s, s.routes[name].dest, conns[s.routes[name].dest])
    ensures forall m :: m in s.sessions && !HasDest(s, HostOnly(m)) ==> conns[HostOnly(m)] == s.sessions[m]
  {
    forall name | name in s.routes ensures HasRoute(s, s.routes[name].dest, conns[s.routes[name].dest]) {
      assert HasDest(s, s.routes[name].dest);
    }
    forall m | m in s.sessions && !HasDest(s, HostOnly(m)) ensures conns[HostOnly(m)] == s.sessions[m] {
      assert !HasRoute(s, HostOnly(m), conns[HostOnly(m)]);
      var n :| n in s.sessions && HostOnly(m) == HostOnly(n) && s.sessions[n] == conns[HostOnly(m)];
      HostOnlyInjective(m, n);
    }
  }

  /** A generated update carries the node's configuration, with its signature, exactly when some
      known node's is older, and its version always. */
  lemma GeneratedCarries(s: Node, conns: Conns)
    ensures var u := GenerateUpdate(s, conns);
            && u.origin == s.addr && u.conns == conns && u.configVersion == s.config.version
            && ((exists o :: o in s.known && s.known[o].configVersion < s.config.version) ==>
                  u.configData == s.config.data && u.configSignature == s.config.signature)
            && ((forall o :: o in s.known ==> s.known[o].configVersion >= s.config.version) ==>
                  u.configData == [] && u.configSignature == [])
  {
  }

  // ----- receiving updates ---------------------------------------------------------------

  /** The keys decide one by one: no key checks nothing, a key list checks what one of its keys does,
      and nil keys stand for the configuration's own. */
  lemma ChecksByKey(crypto: Crypto, data: Bytes, signature: Bytes, key: Key, more: seq<Key>)
    ensures !Checks(crypto, data, signature, Some([]))
    ensures Checks(crypto, data, signature, Some([key] + more)) <==>
              || (crypto.parse(data).Some? && crypto.verify(data, signature, key))
              || Checks(crypto, data, signature, Some(more))
    ensures crypto.parse(data).Some? ==>
              (Checks(crypto, data, signature, None) <==>
               Checks(crypto, data, signature, Some(crypto.parse(data).value.authorizedKeys)))
  {
    assert key in [key] + more;
    assert forall k :: k in more ==> k in [key] + more;
  }

  /** handleRoutingUpdate's verdict.  An unknown origin reads as version (0, 0). */
  predicate Accepts(s: Node, u: Update) {
    && u.origin != s.addr
    && (u.origin in s.known ==> !Newer(s.known[u.origin].version, u.version))
    && u.version != (if u.origin in s.known then s.known[u.origin].version else Version(0, 0))
  }

  /** The three tests of the source come down to one comparison. */
  lemma AcceptsExactly(s: Node, u: Update)
    ensures Accepts(s, u) <==>
              && u.origin != s.addr
              && if u.origin in s.known then Newer(u.version, s.known[u.origin].version) else u.version != Version(0, 0)
  {
  }

  predicate OffersConfig(s: Node, u: Update) {
    s.takesConfigs && u.configData != [] && u.configSignature != [] && u.configVersion > s.config.version
  }

  /** NewConfig: adopt a configuration that parses and is signed, if the files can be stored. */
  ghost function AfterNewConfig(crypto: Crypto, s: Node, data: Bytes, signature: Bytes, stored: bool): Node {
    if Checks(crypto, data, signature, s.keys) && stored
    then s.(config := Config(crypto.parse(data).value.lastUpdated, data, signature))
    else s
  }

  ghost function AfterOffer(crypto: Crypto, s: Node, u: Update, stored: bool): Node {
    if OffersConfig(s, u) then AfterNewConfig(crypto, s, u.configData, u.configSignature, stored) else s
  }

  ghost function AfterUpdate(crypto: Crypto, s: Node, u: Update, stored: bool): Node {
    if Accepts(s, u)
    then AfterOffer(crypto, s, u, stored).(
           known := s.known[u.origin := Known(u.version, u.configVersion)],
           router := Router.AfterUpdate(s.router, u.origin, u.conns))
    else s
  }

  // ----- other operations ----------------------------------------------------------------

  /** monitorDeadNodes, for the nodes it finds dead. */
  function AfterPrune(s: Node, dead: set<IP>): Node {
    var gone := s.known.Keys * dead;
    s.(known := s.known - gone,
       router := Router.AfterRemoveAll(s.router, gone))
  }

  function AfterSession(s: Node, peer: IP, cost: int): Node {
    s.(sessions := s.sessions[peer := CostOrDefault(cost)])
  }

  function AfterAddRoute(s: Node, name: string, dest: Subnet, cost: int): Node {
    s.(routes := s.routes[name := Route(dest, CostOrDefault(cost))])
  }

  // ----- what a node keeps ---------------------------------------------------------------

  ghost predicate GoodUpdate(u: Update) {
    |u.origin| == 16 && u.version.sequence > 0 && ValidConns(u.conns)
  }

  /** Local invariant: positive costs, and a router database that covers
      exactly the known nodes and, once it has announced itself, the node. */
  ghost predicate GoodNode(s: Node) {
    && |s.addr| == 16
    && (forall m :: m in s.sessions ==> |m| == 16 && s.sessions[m] > 0)
    && (forall name :: name in s.routes ==> s.routes[name].cost > 0)
    && s.addr !in s.known
    && s.router.nodes.Keys == s.known.Keys + (if s.sequence > 0 then {s.addr} else {})
  }

  ghost predicate CIDRRoutes(s: Node) {
    forall name :: name in s.routes ==> IsCIDR(s.routes[name].dest)
  }

  /** Every update a good node generates carries positive costs, and CIDR subnets if its external
      routes are. */
  lemma GeneratedIsGood(s: Node, conns: Conns)
    requires GoodNode(s) && Announces(s, conns)
    ensures GoodUpdate(GenerateUpdate(s, conns))
    ensures CIDRRoutes(s) ==> Router.CIDRConns(conns)
  {
    forall k | k in conns ensures conns[k] > 0 && (CIDRRoutes(s) ==> IsCIDR(k)) {
      if HasRoute(s, k, conns[k]) {
      } else {
        var m :| m in s.sessions && k == HostOnly(m) && s.sessions[m] == conns[k];
        HostOnlyIsExact(m);
      }
    }
  }

  lemma OriginateKeepsGood(s: Node, conns: Conns)
    requires GoodNode(s)
    ensures GoodNode(AfterOriginate(s, conns))
    ensures AfterOriginate(s, conns).router.nodes == s.router.nodes[s.addr := conns]
  {
  }

  lemma AcceptKeepsGood(crypto: Crypto, s: Node, u: Update, stored: bool)
    requires GoodNode(s)
    ensures GoodNode(AfterUpdate(crypto, s, u, stored))
    ensures Accepts(s, u) ==> AfterUpdate(crypto, s, u, stored).router.nodes == s.router.nodes[u.origin := u.conns]
  {
    if Accepts(s, u) {
      OfferChangesConfigOnly(crypto, s, u, stored);
      LearnKeepsGood(s, u.origin, u.conns, Known(u.version, u.configVersion), AfterOffer(crypto, s, u, stored).config);
    }
  }

  lemma OfferChangesConfigOnly(crypto: Crypto, s: Node, u: Update, stored: bool)
    ensures AfterOffer(crypto, s, u, stored) == s.(config := AfterOffer(crypto, s, u, stored).config)
  {
  }

  lemma LearnKeepsGood(s: Node, o: IP, conns: Conns, k: Known, config: Config)
    requires GoodNode(s) && o != s.addr
    ensures GoodNode(s.(config := config, known := s.known[o := k], router := Router.AfterUpdate(s.router, o, conns)))
    ensures Router.AfterUpdate(s.router, o, conns).nodes == s.router.nodes[o := conns]
  {
    Router.UpdatedNodes(s.router, o, conns);
    var self := if s.sequence > 0 then {s.addr} else {};
    assert s.router.nodes[o := conns].Keys == s.router.nodes.Keys + {o};
    assert s.known[o := k].Keys == s.known.Keys + {o};
    assert s.known.Keys + self + {o} == s.known.Keys + {o} + self;
  }

  /** Pruning forgets exactly the dead nodes that were known, here and in the router, schedules a
      recalculation if there were any, and changes nothing else. */
  lemma PruneExactly(s: Node, dead: set<IP>)
    requires GoodNode(s)
    ensures var t := AfterPrune(s, dead);
            && t.known == s.known - dead
            && (forall o :: o in t.router.nodes <==> o in s.router.nodes && (o == s.addr || o !in dead))
            && (forall o :: o in t.router.nodes ==> t.router.nodes[o] == s.router.nodes[o])
            && (t.router.pending <==> s.router.pending || exists o :: o in s.known && o in dead)
            && t == s.(known := t.known, router := t.router) && t.router.policy == s.router.policy
  {
    var gone := s.known.Keys * dead;
    assert s.known - gone == s.known - dead;
    if s.router.nodes.Keys * gone != {} {
      var o :| o in s.router.nodes.Keys * gone;
      assert o in s.known && o in dead;
    }
    forall o | o in s.known && o in dead ensures o in s.router.nodes.Keys * gone {
    }
  }

  lemma PruneKeepsGood(s: Node, dead: set<IP>)
    requires GoodNode(s)
    ensures GoodNode(AfterPrune(s, dead))
  {
  }

  lemma SessionKeepsGood(s: Node, peer: IP, cost: int)
    requires GoodNode(s) && |peer| == 16
    ensures GoodNode(AfterSession(s, peer, cost))
  {
  }

  lemma AddRouteKeepsGood(s: Node, name: string, dest: Subnet, cost: int)
    requires GoodNode(s)
    ensures GoodNode(AfterAddRoute(s, name, dest, cost))
  {
  }

  // ----- with the router -----------------------------------------------------------------

  /** The whole invariant of a node: its own and its router's. */
  ghost predicate ValidNode(s: Node) {
    GoodNode(s) && CIDRRoutes(s) && Router.Sound(s.addr, s.router)
  }

  lemma OriginateKeepsValid(s: Node, conns: Conns)
    requires ValidNode(s) && Announces(s, conns)
    ensures ValidNode(AfterOriginate(s, conns))
  {
    GeneratedIsGood(s, conns);
    OriginateKeepsGood(s, conns);
    Router.UpdateKeepsSound(s.addr, s.router, s.addr, conns);
  }

  lemma AcceptKeepsValid(crypto: Crypto, s: Node, u: Update, stored: bool)
    requires ValidNode(s) && GoodUpdate(u) && Router.CIDRConns(u.conns)
    ensures ValidNode(AfterUpdate(crypto, s, u, stored))
  {
    AcceptKeepsGood(crypto, s, u, stored);
    Router.UpdateKeepsSound(s.addr, s.router, u.origin, u.conns);
  }

  lemma AcceptMayKeepValid(crypto: Crypto, s: Node, u: Update, stored: bool)
    ensures ValidNode(s) && GoodUpdate(u) && Router.CIDRConns(u.conns) ==> ValidNode(AfterUpdate(crypto, s, u, stored))
  {
    if ValidNode(s) && GoodUpdate(u) && Router.CIDRConns(u.conns) {
      AcceptKeepsValid(crypto, s, u, stored);
    }
  }

  lemma AddRouteMayKeepValid(s: Node, name: string, dest: Subnet, cost: int)
    ensures ValidNode(s) && IsCIDR(dest) ==> ValidNode(AfterAddRoute(s, name, dest, cost))
  {
    if ValidNode(s) {
      AddRouteKeepsGood(s, name, dest, cost);
    }
  }

  lemma PruneKeepsValid(s: Node, dead: set<IP>)
    requires ValidNode(s)
    ensures ValidNode(AfterPrune(s, dead))
  {
    PruneKeepsGood(s, dead);
    Router.RemoveAllKeepsSound(s.addr, s.router, s.known.Keys * dead);
  }
}
