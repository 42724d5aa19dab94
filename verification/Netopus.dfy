/** The netopus object of pkg/netopus/netopus.go: fields updated in place, proved to do to them
    what the value-level operations of Node and Forwarding say. */
module Netopus {
  import opened Address
  import opened Optional
  import opened Routes
  import N = Node
  import F = Flood
  import Fwd = Forwarding
  import R = Router

  /** ParseAndCheckConfig of pkg/connectopus/connectopus.go: the loop over the authorized keys. */
  method ParseAndCheckConfig(crypto: N.Crypto, data: Bytes, signature: Bytes, authKeys: Option<seq<N.Key>>)
    returns (doc: Option<N.Document>)
    ensures doc.Some? <==> N.Checks(crypto, data, signature, authKeys)
    ensures doc.Some? ==> doc == crypto.parse(data)
  {
    doc := None;
    var parsed := crypto.parse(data);
    if parsed.None? {
      return;
    }
    var keys := if authKeys.Some? then authKeys.value else parsed.value.authorizedKeys;
    for i := 0 to |keys|
      invariant forall j :: 0 <= j < i ==> !crypto.verify(data, signature, keys[j])
    {
      if crypto.verify(data, signature, keys[i]) {
        return parsed;
      }
    }
  }

  lemma MinusMinus<K, V>(m: map<K, V>, gone: set<K>, k: K)
    ensures m - gone - {k} == m - (gone + {k})
  {
  }

  class Netopus {
    const addr: IP
    const epoch: nat
    const crypto: N.Crypto
    const keys: Option<seq<N.Key>>
    /** Whether newConfigFunc is set. */
    const takesConfigs: bool
    const router: R.Router
    var sequence: nat
    var known: map<IP, N.Known>
    var sessions: map<IP, nat>
    var routes: map<string, N.Route>
    var config: N.Config
    /** Routing updates handed to the sessions' writers. */
    var outbox: multiset<F.Packet>

    function Now(): N.Node
      reads this, router
    {
      N.Node(addr, epoch, sequence, known, sessions, routes, router.Now(), keys, takesConfigs, config)
    }

    /** What the operations on routing updates need. */
    ghost predicate Usable()
      reads this, router
    {
      addr != [] && router.me == addr && router.Valid()
    }

    /** The whole invariant, which they keep among nodes that announce positive costs and CIDR
        subnets. */
    ghost predicate Valid()
      reads this, router
    {
      N.ValidNode(Now()) && router.me == addr
    }

    constructor (addr: IP, epoch: nat, crypto: N.Crypto, keys: Option<seq<N.Key>>, takesConfigs: bool)
      requires |addr| == 16
      ensures Valid() && Usable() && fresh(router)
      ensures Now() == N.Start(addr, epoch, keys, takesConfigs, N.NoConfig) && outbox == multiset{}
    {
      this.addr, this.epoch, this.crypto, this.keys, this.takesConfigs := addr, epoch, crypto, keys, takesConfigs;
      router := new R.Router(addr);
      sequence, known, sessions, routes := 0, map[], map[], map[];
      config, outbox := N.NoConfig, multiset{};
    }

    // ----- updates -----------------------------------------------------------------------

    /** The connections to announce: sessions first, external routes over them. */
    method CollectConnections() returns (conns: Conns)
      ensures N.Announces(Now(), conns)
    {
      conns := map[];
      var left := sessions.Keys;
      while left != {}
        invariant left <= sessions.Keys
        invariant forall k :: k in conns ==> N.HasSession(Now(), k, conns[k])
        invariant forall m :: m in sessions && m !in left ==> HostOnly(m) in conns
      {
        var m :| m in left;
        left := left - {m};
        conns := conns[HostOnly(m) := sessions[m]];
      }
      var names := routes.Keys;
      while names != {}
        invariant names <= routes.Keys
        invariant forall k :: k in conns ==>
                    N.HasRoute(Now(), k, conns[k]) || (N.HasSession(Now(), k, conns[k]) && NotYet(k, names))
        invariant forall m :: m in sessions ==> HostOnly(m) in conns
        invariant forall name :: name in routes && name !in names ==> routes[name].dest in conns
      {
        var name :| name in names;
        names := names - {name};
        assert N.HasRoute(Now(), routes[name].dest, routes[name].cost);
        conns := conns[routes[name].dest := routes[name].cost];
      }
    }

    /** Every route to k is still to be visited. */
    ghost predicate NotYet(k: Subnet, names: set<string>)
      reads this
    {
      forall name :: name in routes && routes[name].dest == k ==> name in names
    }

    method CheckConfigsConverged(version: nat) returns (converged: bool)
      ensures converged <==> N.ConfigsConverged(known, version)
    {
      converged := true;
      var left := known.Keys;
      while left != {} && converged
        invariant left <= known.Keys
        invariant converged ==> forall o :: o in known && o !in left ==> known[o].configVersion >= version
        invariant !converged ==> !N.ConfigsConverged(known, version)
        decreases |left|
      {
        var o :| o in left;
        left := left - {o};
        if known[o].configVersion < version {
          converged := false;
        }
      }
    }

    method GenerateRoutingUpdate() returns (u: N.Update)
      modifies `sequence
      ensures N.Announces(old(Now()), u.conns) && u == N.GenerateUpdate(old(Now()), u.conns)
      ensures (exists o :: o in known && known[o].configVersion < config.version) ==>
                u.configData == config.data && u.configSignature == config.signature
      ensures (forall o :: o in known ==> known[o].configVersion >= config.version) ==>
                u.configData == [] && u.configSignature == []
      ensures Now() == old(Now()).(sequence := old(sequence) + 1)
    {
      var conns := CollectConnections();
      u := N.Update(addr, N.Version(epoch, 0), conns, config.version, [], []);
      var converged := CheckConfigsConverged(config.version);
      if !converged {
        u := u.(configData := config.data, configSignature := config.signature);
      }
      sequence := sequence + 1;
      u := u.(version := N.Version(epoch, sequence));
      if forall o :: o in known ==> known[o].configVersion >= config.version {
        assert N.ConfigsConverged(known, config.version);
      }
    }

    /** One packet for every session's peer but the excepted one. */
    method FloodRoutingUpdate(u: N.Update, except: Option<IP>)
      modifies `outbox
      ensures outbox == old(outbox) + F.Flooded(Now(), if except.Some? then {except.value} else {}, u)
    {
      var left := sessions.Keys;
      ghost var excepted := if except.Some? then {except.value} else {};
      ghost var sent: set<F.Packet> := {};
      while left != {}
        invariant left <= sessions.Keys
        invariant sent == set m | m in sessions && m !in left && m !in excepted :: F.Packet(addr, m, u)
        invariant outbox == old(outbox) + multiset(sent)
      {
        var m :| m in left;
        left := left - {m};
        if except.Some? && m == except.value {
          continue;
        }
        assert F.Packet(addr, m, u) !in sent;
        sent := sent + {F.Packet(addr, m, u)};
        outbox := outbox + multiset{F.Packet(addr, m, u)};
      }
    }

    /** The first half of the update sender: a numbered update, also for the own router. */
    method RecordUpdate() returns (u: N.Update)
      requires Usable()
      modifies `sequence, router
      ensures Usable() && N.Announces(old(Now()), u.conns) && u == N.GenerateUpdate(old(Now()), u.conns)
      ensures Now() == N.AfterOriginate(old(Now()), u.conns)
    {
      u := GenerateRoutingUpdate();
      router.UpdateNode(addr, u.conns);
    }

    /** The body of the update sender. */
    method SendUpdate() returns (ghost conns: Conns)
      requires Usable()
      modifies `sequence, `outbox, router
      ensures Usable() && (old(Valid()) ==> Valid())
      ensures N.Announces(old(Now()), conns) && Now() == N.AfterOriginate(old(Now()), conns)
      ensures outbox == old(outbox) + F.Sent(old(Now()), F.Originate(addr, conns))
    {
      ghost var before := Now();
      var u := RecordUpdate();
      conns := u.conns;
      if N.ValidNode(before) {
        N.OriginateKeepsValid(before, conns);
      }
      FloodRoutingUpdate(u, None);
    }

    /** stored says whether the configuration files could be written. */
    method NewConfig(data: Bytes, signature: Bytes, stored: bool)
      modifies `config
      ensures Now() == N.AfterNewConfig(crypto, old(Now()), data, signature, stored)
    {
      var doc := ParseAndCheckConfig(crypto, data, signature, keys);
      if doc.None? || !stored {
        return;
      }
      UpdateConfig(data, signature, doc.value.lastUpdated);
    }

    method UpdateConfig(data: Bytes, signature: Bytes, version: nat)
      modifies `config
      ensures Now() == old(Now()).(config := N.Config(version, data, signature))
    {
      config := N.Config(version, data, signature);
    }

    method HandleRoutingUpdate(u: N.Update, stored: bool) returns (forward: bool)
      modifies `known, `config
      ensures forward <==> N.Accepts(old(Now()), u)
      ensures !forward ==> Now() == old(Now())
      ensures forward ==>
                Now() == N.AfterOffer(crypto, old(Now()), u, stored).(
                           known := old(known)[u.origin := N.Known(u.version, u.configVersion)])
    {
      forward := false;
      if u.origin == addr {
        return;
      }
      var ok := u.origin in known;
      var ni := if ok then known[u.origin].version else N.Version(0, 0);
      if ok && (u.version.epoch < ni.epoch || (u.version.epoch == ni.epoch && u.version.sequence < ni.sequence)) {
        return;
      }
      if u.version.epoch == ni.epoch && u.version.sequence == ni.sequence {
        return;
      }
      forward := true;
      known := known[u.origin := N.Known(u.version, u.configVersion)];
      if takesConfigs && |u.configData| > 0 && |u.configSignature| > 0 {
        if u.configVersion > config.version {
          NewConfig(u.configData, u.configSignature, stored);
        }
      }
    }

    /** Acceptance and the router's copy, which the reader does one after the other. */
    method AcceptUpdate(u: N.Update, stored: bool) returns (forward: bool)
      requires Usable() && u.origin != []
      modifies `known, `config, router
      ensures Usable() && Now() == N.AfterUpdate(crypto, old(Now()), u, stored)
      ensures forward <==> N.Accepts(old(Now()), u)
    {
      forward := HandleRoutingUpdate(u, stored);
      if forward {
        router.UpdateNode(u.origin, u.conns);
      }
    }

    /** One iteration of a session's reader. */
    method ReadUpdate(via: IP, u: N.Update, stored: bool)
      requires Usable() && u.origin != []
      modifies `known, `config, `outbox, router
      ensures Usable() && (old(Valid()) && N.GoodUpdate(u) && R.CIDRConns(u.conns) ==> Valid())
      ensures Now() == N.AfterUpdate(crypto, old(Now()), u, stored)
      ensures outbox == old(outbox) + F.Sent(old(Now()), F.Deliver(F.Packet(via, addr, u), stored))
    {
      N.AcceptMayKeepValid(crypto, Now(), u, stored);
      var forward := AcceptUpdate(u, stored);
      if forward {
        FloodRoutingUpdate(u, Some(via));
      }
    }

    method Forget(o: IP)
      requires router.Valid()
      modifies `known, router
      ensures known == old(known) - {o} && router.Valid() && router.Now() == R.AfterRemove(old(router.Now()), o)
    {
      known := known - {o};
      router.RemoveNode(o);
    }

    /** The loop of the dead-node monitor over the known nodes. */
    method ForgetAll(stale: set<IP>)
      requires router.Valid()
      modifies `known, router
      ensures known == old(known) - old(known).Keys * stale && router.Valid()
      ensures router.Now() == R.AfterRemoveAll(old(router.Now()), old(known).Keys * stale)
    {
      ghost var before, state := known, router.Now();
      ghost var gone: set<IP> := {};
      var left := known.Keys;
      R.RemoveNone(state);
      while left != {}
        invariant left <= before.Keys
        invariant gone <= before.Keys * stale <= gone + left
        invariant known == before - gone && router.Now() == R.AfterRemoveAll(state, gone) && router.Valid()
      {
        var o :| o in left;
        left := left - {o};
        if o in stale {
          R.RemoveOneMore(state, gone, o);
          MinusMinus(before, gone, o);
          Forget(o);
          gone := gone + {o};
        }
      }
      assert gone == before.Keys * stale;
    }

    /** The dead-node monitor; stale are the nodes not heard of for a minute. */
    method RemoveDeadNodes(stale: set<IP>)
      requires Usable()
      modifies `known, router
      ensures Usable() && (old(Valid()) ==> Valid())
      ensures Now() == N.AfterPrune(old(Now()), stale)
      ensures known == old(known) - stale && router.nodes == old(router.nodes) - old(known).Keys * stale
      ensures router.pending <==> old(router.pending) || old(router.nodes).Keys * old(known).Keys * stale != {}
    {
      if N.ValidNode(Now()) {
        N.PruneKeepsValid(Now(), stale);
      }
      ForgetAll(stale);
      assert old(known) - old(known).Keys * stale == old(known) - stale;
      assert old(router.nodes).Keys * (old(known).Keys * stale) == old(router.nodes).Keys * old(known).Keys * stale;
    }

    /** A session has connected; RunProtocol has replaced a cost that is not positive. */
    method OpenSession(peer: IP, cost: int)
      modifies `sessions
      ensures Now() == N.AfterSession(old(Now()), peer, cost)
      ensures sessions == old(sessions)[peer := if cost > 0 then cost else N.UnitCost]
      ensures old(Valid()) && |peer| == 16 ==> Valid()
    {
      if N.GoodNode(Now()) && |peer| == 16 {
        N.SessionKeepsGood(Now(), peer, cost);
      }
      var c: nat := if cost <= 0 then N.UnitCost else cost;
      sessions := sessions[peer := c];
    }

    method AddExternalRoute(name: string, dest: Subnet, cost: int)
      modifies `routes
      ensures Now() == N.AfterAddRoute(old(Now()), name, dest, cost)
      ensures routes == old(routes)[name := N.Route(dest, if cost > 0 then cost else N.UnitCost)]
      ensures old(Valid()) && IsCIDR(dest) ==> Valid()
    {
      N.AddRouteMayKeepValid(Now(), name, dest, cost);
      var c: nat := if cost <= 0 then N.UnitCost else cost;
      routes := routes[name := N.Route(dest, c)];
    }

    // ----- forwarding --------------------------------------------------------------------

    ghost function View(): Fwd.View
      reads this, router
    {
      Fwd.ViewOf(Now())
    }

    /** The external route for a destination, if any; map order picks among several. */
    method FindExternalRoute(dst: IP) returns (found: bool)
      ensures found <==> Fwd.IsExternal(View(), dst)
    {
      found := false;
      var names := routes.Keys;
      while names != {} && !found
        invariant names <= routes.Keys
        invariant found ==> Fwd.IsExternal(View(), dst)
        invariant !found ==> forall name :: name in routes && name !in names ==> !Contains(routes[name].dest, dst)
        decreases |names|
      {
        var name :| name in names;
        names := names - {name};
        if Contains(routes[name].dest, dst) {
          assert routes[name].dest in View().externals;
          found := true;
        }
      }
    }

    /** A valid node's lookups do not depend on map order. */
    lemma ValidIsDeterministic()
      requires Valid()
      ensures R.Deterministic(router.policy)
    {
      R.CIDRIsDeterministic(router.policy);
    }

    method LookUp(dst: IP) returns (hop: Option<IP>)
      requires R.Deterministic(router.policy)
      ensures hop == R.RouteTo(router.policy, dst)
    {
      hop := router.NextHop(dst);
      assert R.IsNextHop(router.policy, dst, R.RouteTo(router.policy, dst));
    }

    /** SendPacket changes the hop limit in the caller's buffer. */
    method SendPacket(log: EventLog, pkt: PacketBuffer) returns (status: SendStatus)
      requires R.Deterministic(router.policy)
      modifies log, pkt
      ensures pkt.size < 40 ==> status == TooSmall && log.events == old(log.events) && log.errors == old(log.errors)
      ensures pkt.size >= 40 ==>
                var r := Fwd.Send(View(), old(pkt.Value()));
                status == Sent(r.status) && log.events == old(log.events) + r.out &&
                  log.errors == old(log.errors) + r.errors
      ensures pkt.hopLimit == if pkt.size < 40 || Fwd.IsMulticast(pkt.dst) || pkt.dst == addr || old(pkt.hopLimit) <= 1
                              then old(pkt.hopLimit) else old(pkt.hopLimit) - 1
      decreases Fwd.Rank(View(), pkt.Value())
    {
      if pkt.size < 40 {
        return TooSmall;
      }
      ghost var p := pkt.Value();
      if Fwd.IsMulticast(pkt.dst) {
        return Sent(Fwd.Done);
      }
      if pkt.dst == addr {
        log.events := log.events + [Fwd.Delivered(pkt.Value())];
        return Sent(Fwd.Done);
      }
      if pkt.hopLimit <= 1 {
        SendICMPv6Error(log, pkt, Fwd.HopLimitExceeded);
        return Sent(Fwd.Done);
      }
      pkt.hopLimit := pkt.hopLimit - 1;
      var external := FindExternalRoute(pkt.dst);
      if external {
        log.events := log.events + [Fwd.External(pkt.Value())];
        return Sent(Fwd.Done);
      }
      var hop := LookUp(pkt.dst);
      if hop.None? {
        SendICMPv6Error(log, pkt, Fwd.NetworkUnreachable);
        return Sent(Fwd.NoRoute);
      }
      if hop.value !in sessions {
        return Sent(Fwd.NoSession);
      }
      log.events := log.events + [Fwd.Forwarded(hop.value, pkt.Value())];
      return Sent(Fwd.Done);
    }

    method SendICMPv6Error(log: EventLog, orig: PacketBuffer, kind: Fwd.ErrorKind)
      requires R.Deterministic(router.policy) && orig.dst != addr
      modifies log
      ensures var r := Fwd.Send(View(), Fwd.ErrorAbout(addr, kind, old(orig.Value())));
              log.events == old(log.events) + r.out && log.errors == old(log.errors) + r.errors + 1
      decreases Fwd.Rank(View(), orig.Value()), 0
    {
      var extraSize := if 48 > orig.size then orig.size else 48;
      var reply := new PacketBuffer(40 + 8 + extraSize, addr, orig.src, Fwd.ErrorHopLimit,
        Fwd.Error(kind, orig.Value()));
      log.errors := log.errors + 1;
      var _ := SendPacket(log, reply);
    }

    /** SendOOB increments the counter in the caller's message before it checks it. */
    method SendOOB(msg: OobBuffer, ports: set<nat>) returns (r: Fwd.OobResult)
      requires R.Deterministic(router.policy)
      modifies msg
      ensures r == Fwd.SendOob(View(), ports, old(msg.Value()))
      ensures msg.hops == if msg.dst == addr then old(msg.hops) else Fwd.Incremented(old(msg.hops))
    {
      if msg.dst == addr {
        return if msg.destPort in ports then Fwd.ToPort(msg.Value()) else Fwd.PortUnreachable;
      }
      msg.hops := Fwd.Incremented(msg.hops);
      if msg.hops >= Fwd.MaxOobHops {
        return Fwd.Expired;
      }
      var hop := LookUp(msg.dst);
      var next := if hop.Some? then hop.value else msg.dst;
      if next !in sessions {
        return Fwd.OobNoSession;
      }
      return Fwd.OobForwarded(next, msg.Value());
    }

    // ----- what comes in -----------------------------------------------------------------

    /** A packet from the own stack or from a session. */
    method HandlePacket(log: EventLog, pkt: PacketBuffer) returns (status: SendStatus)
      requires Valid()
      modifies log, pkt
      ensures Valid() && Now() == old(Now())
      ensures pkt.size >= 40 ==>
                var r := Fwd.Send(View(), old(pkt.Value()));
                status == Sent(r.status) && log.events == old(log.events) + r.out &&
                  log.errors == old(log.errors) + r.errors
    {
      ValidIsDeterministic();
      status := SendPacket(log, pkt);
    }

    /** An out-of-band message from a session. */
    method HandleOOB(msg: OobBuffer, ports: set<nat>) returns (r: Fwd.OobResult)
      requires Valid()
      modifies msg
      ensures Valid() && Now() == old(Now()) && r == Fwd.SendOob(View(), ports, old(msg.Value()))
    {
      ValidIsDeterministic();
      r := SendOOB(msg, ports);
    }
  }

  // ----- buffers -------------------------------------------------------------------------

  datatype SendStatus = TooSmall | Sent(status: Fwd.Status)

  /** A packet in a buffer that forwarding may write to. */
  class PacketBuffer {
    const size: nat
    const src: IP
    const dst: IP
    const payload: Fwd.Payload
    var hopLimit: Fwd.Byte

    constructor (size: nat, src: IP, dst: IP, hopLimit: Fwd.Byte, payload: Fwd.Payload)
      ensures this.size == size && Value() == Fwd.Packet(src, dst, hopLimit, payload)
    {
      this.size, this.src, this.dst, this.hopLimit, this.payload := size, src, dst, hopLimit, payload;
    }

    function Value(): Fwd.Packet
      reads this
    {
      Fwd.Packet(src, dst, hopLimit, payload)
    }
  }

  class OobBuffer {
    const src: IP
    const dst: IP
    const destPort: nat
    var hops: Fwd.Byte

    constructor (hops: Fwd.Byte, src: IP, dst: IP, destPort: nat)
      ensures Value() == Fwd.Oob(hops, src, dst, destPort)
    {
      this.hops, this.src, this.dst, this.destPort := hops, src, dst, destPort;
    }

    function Value(): Fwd.Oob
      reads this
    {
      Fwd.Oob(hops, src, dst, destPort)
    }
  }

  /** What leaves the node, and the number of ICMPv6 errors it has generated. */
  class EventLog {
    var events: seq<Fwd.Event>
    var errors: nat

    constructor ()
      ensures events == [] && errors == 0
    {
      events, errors := [], 0;
    }
  }
}
