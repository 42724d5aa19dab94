/** Packet forwarding at one node and along any chain of nodes: SendPacket, sendICMPv6Error
    and SendOOB in pkg/netopus/netopus.go.

    Packets are modelled by the header fields that forwarding reads and writes; an ICMPv6 error
    carries the packet it is about. */
module Forwarding {
  import opened Address
  import opened Optional
  import opened Routes
  import Router
  import N = Node

  /** Hop limits and hop counters are one byte on the wire. */
  type Byte = x: nat | x < 256

  datatype ErrorKind = HopLimitExceeded | NetworkUnreachable

  datatype Payload = Data(bytes: Bytes) | Error(kind: ErrorKind, about: Packet)

  datatype Packet = Packet(src: IP, dst: IP, hopLimit: Byte, payload: Payload)

  /** What forwarding reads of a node: address, policy, external routes, session peers. */
  datatype View = View(addr: IP, policy: Policy, externals: set<Subnet>, sessions: set<IP>)

  function ViewOf(s: N.Node): View {
    View(s.addr, s.router.policy, set name | name in s.routes :: s.routes[name].dest, s.sessions.Keys)
  }

  datatype Event = Delivered(packet: Packet) | External(packet: Packet) | Forwarded(next: IP, packet: Packet)

  datatype Status = Done | NoRoute | NoSession

  /** errors counts the ICMPv6 error packets that the call generated. */
  datatype Outcome = Outcome(out: seq<Event>, status: Status, errors: nat)

  predicate IsMulticast(a: IP) {
    |a| > 0 && a[0] == 0xff
  }

  const ErrorHopLimit: Byte := 30

  function ErrorAbout(addr: IP, kind: ErrorKind, p: Packet): Packet {
    Packet(addr, p.src, ErrorHopLimit, Error(kind, p))
  }

  predicate IsExternal(v: View, dst: IP) {
    exists s :: s in v.externals && Contains(s, dst)
  }

  /** How many error packets a packet can still give rise to. */
  function Rank(v: View, p: Packet): nat {
    if p.dst == v.addr then 0 else if p.src == v.addr then 1 else 2
  }

  /** SendPacket together with sendICMPv6Error, which it calls and which calls it. */
  ghost function Send(v: View, p: Packet): Outcome
    decreases Rank(v, p)
  {
    if IsMulticast(p.dst) then Outcome([], Done, 0)
    else if p.dst == v.addr then Outcome([Delivered(p)], Done, 0)
    else if p.hopLimit <= 1 then SendError(v, p, HopLimitExceeded, Done)
    else
      var q := p.(hopLimit := p.hopLimit - 1);
      if IsExternal(v, p.dst) then Outcome([External(q)], Done, 0)
      else match Router.RouteTo(v.policy, p.dst)
        case None => SendError(v, q, NetworkUnreachable, NoRoute)
        case Some(next) =>
          if next in v.sessions then Outcome([Forwarded(next, q)], Done, 0) else Outcome([], NoSession, 0)
  }

  ghost function SendError(v: View, p: Packet, kind: ErrorKind, status: Status): Outcome
    requires p.dst != v.addr
    decreases Rank(v, p), 0
  {
    var reply := Send(v, ErrorAbout(v.addr, kind, p));
    Outcome(reply.out, status, reply.errors + 1)
  }

  // ----- one node ------------------------------------------------------------------------

  /** The node answers the packet with an error: its hop limit is used up or nothing leads on. */
  ghost predicate Blocked(v: View, p: Packet) {
    && !IsMulticast(p.dst) && p.dst != v.addr
    && (p.hopLimit <= 1 || (!IsExternal(v, p.dst) && Router.RouteTo(v.policy, p.dst).None?))
  }

  /** Every call ends, with at most one packet leaving the node and at most two errors: one
      about the packet, and one, to the node itself, about an error without a way back. */
  lemma SendBounds(v: View, p: Packet)
    ensures |Send(v, p).out| <= 1
    ensures Send(v, p).errors <= Rank(v, p) <= 2
    ensures Send(v, p).errors == 0 <==> !Blocked(v, p)
    ensures Send(v, p).errors == 2 <==>
              Blocked(v, p) && p.src != v.addr && !IsMulticast(p.src) && !IsExternal(v, p.src) &&
                Router.RouteTo(v.policy, p.src).None?
    ensures Send(v, p).errors == 2 ==>
              forall e :: e in Send(v, p).out ==> e.Delivered? && e.packet.src == v.addr && e.packet.dst == v.addr
  {
    if Blocked(v, p) {
      var e := AnswerTo(v, p);
      BlockedAnswers(v, p);
      if Blocked(v, e) {
        BlockedAnswers(v, e);
      }
    }
  }

  /** The error packet with which a blocked packet is answered. */
  function AnswerTo(v: View, p: Packet): Packet {
    if p.hopLimit <= 1 then ErrorAbout(v.addr, HopLimitExceeded, p)
    else ErrorAbout(v.addr, NetworkUnreachable, p.(hopLimit := p.hopLimit - 1))
  }

  lemma BlockedAnswers(v: View, p: Packet)
    requires Blocked(v, p)
    ensures Send(v, p).out == Send(v, AnswerTo(v, p)).out && Send(v, p).errors == Send(v, AnswerTo(v, p)).errors + 1
  {
  }

  /** The error that goes out about a blocked packet: to the packet's source, from this node,
      with a hop limit of 30, less one if it goes on, and of the kind that fits the reason. */
  lemma ErrorGoesBack(v: View, p: Packet, e: Event)
    requires Send(v, p).errors == 1 && e in Send(v, p).out
    ensures e.packet.src == v.addr && e.packet.dst == p.src
    ensures e.packet.hopLimit == if e.Delivered? then 30 else 29
    ensures e.packet.payload == Error(if p.hopLimit <= 1 then HopLimitExceeded else NetworkUnreachable,
                                      if p.hopLimit <= 1 then p else p.(hopLimit := p.hopLimit - 1))
    ensures e.Delivered? <==> p.src == v.addr
  {
    OneErrorIsTheAnswer(v, p);
    UnblockedOutput(v, AnswerTo(v, p), e);
  }

  lemma OneErrorIsTheAnswer(v: View, p: Packet)
    requires Send(v, p).errors == 1
    ensures !Blocked(v, AnswerTo(v, p)) && Send(v, p).out == Send(v, AnswerTo(v, p)).out
  {
    SendBounds(v, p);
    BlockedAnswers(v, p);
    SendBounds(v, AnswerTo(v, p));
  }

  lemma UnblockedOutput(v: View, p: Packet, e: Event)
    requires !Blocked(v, p) && e in Send(v, p).out
    ensures e.Delivered? <==> p.dst == v.addr
    ensures e.Delivered? ==> e.packet == p
    ensures !e.Delivered? ==> p.hopLimit > 0 && e.packet == p.(hopLimit := p.hopLimit - 1)
  {
  }

  /** A packet ends in the node's own stack, as itself, exactly when it is for the node and not
      multicast, at any hop limit; whatever else the stack is handed is an error about a packet
      that this node sent, or one that could not get back. */
  lemma DeliveredExactly(v: View, p: Packet, q: Packet)
    requires Delivered(q) in Send(v, p).out
    ensures q.dst == v.addr && !IsMulticast(p.dst)
    ensures q == p <==> p.dst == v.addr
    ensures q != p ==> q.src == v.addr && q.payload.Error?
  {
    SendBounds(v, p);
    if Blocked(v, p) {
      BlockedAnswers(v, p);
      if Blocked(v, AnswerTo(v, p)) {
        BlockedAnswers(v, AnswerTo(v, p));
      }
    }
  }

  /** A packet for elsewhere with a hop limit that lets it go on. */
  predicate GoesOn(v: View, p: Packet) {
    !IsMulticast(p.dst) && p.dst != v.addr && p.hopLimit >= 2
  }

  /** What becomes of every packet, from the routes, the policy and the sessions: external routes
      come first, then the policy; without an entry the sender is told, without a session to the
      next hop nothing leaves the node, and nobody but the caller is told. */
  lemma SendExactly(v: View, p: Packet)
    ensures (exists q :: Send(v, p) == Outcome([External(q)], Done, 0)) <==>
              GoesOn(v, p) && exists s :: s in v.externals && Contains(s, p.dst)
    ensures forall q :: Send(v, p) == Outcome([External(q)], Done, 0) ==>
              p.hopLimit > 0 && q == p.(hopLimit := p.hopLimit - 1)
    ensures Send(v, p).status.NoRoute? <==>
              && GoesOn(v, p) && (forall s :: s in v.externals ==> !Contains(s, p.dst))
              && Router.RouteTo(v.policy, p.dst) == None
    ensures Send(v, p).status.NoSession? <==>
              && GoesOn(v, p) && (forall s :: s in v.externals ==> !Contains(s, p.dst))
              && Router.RouteTo(v.policy, p.dst).Some? && Router.RouteTo(v.policy, p.dst).value !in v.sessions
    ensures Send(v, p).errors == 0 ==>
              (Send(v, p).out == [] <==> IsMulticast(p.dst) || Send(v, p).status.NoSession?)
    ensures Send(v, p).status.NoSession? ==> Send(v, p).errors == 0
  {
    SendBounds(v, p);
    if GoesOn(v, p) && IsExternal(v, p.dst) {
      assert Send(v, p) == Outcome([External(p.(hopLimit := p.hopLimit - 1))], Done, 0);
    }
  }

  /** ff00::/8, the multicast addresses of section 2.7 of RFC 4291. */
  const MulticastPrefix: IP := [0xff, 0, 0, 0, 0, 0, 0, 0, 0, 0, 0, 0, 0, 0, 0, 0]

  lemma MulticastIsSubnet(a: IP)
    requires |a| == 16
    ensures IsMulticast(a) <==> Contains(MakeSubnet(MulticastPrefix, CIDRMask(8, 128)), a)
  {
    var m := CIDRMask(8, 128);
    var s := MakeSubnet(MulticastPrefix, m);
    MakeSubnetIsCIDR(MulticastPrefix, 8);
    assert m[0] == 0xff && forall i :: 1 <= i < 16 ==> m[i] == 0;
    assert SubnetIP(s) == MulticastPrefix && SubnetMask(s) == m;
    assert !IsMapped(MulticastPrefix);
    FirstByteDecides(a[0]);
    assert forall i :: 1 <= i < 16 ==> MulticastPrefix[i] & m[i] == a[i] & m[i];
  }

  lemma FirstByteDecides(x: bv8)
    ensures 0xff & 0xff == x & 0xff <==> x == 0xff
  {
  }

  // ----- chains of nodes -----------------------------------------------------------------

  datatype Hop = Hop(next: IP, packet: Packet)

  /** The packet crosses a link as itself. */
  ghost function HopOf(v: View, p: Packet): Option<Hop> {
    var r := Send(v, p);
    if r.errors == 0 && |r.out| == 1 && r.out[0].Forwarded? then Some(Hop(r.out[0].next, r.out[0].packet)) else None
  }

  /** The links a packet crosses when it meets these views one after the other.  The views are
      arbitrary: policies may change between hops, disagree and loop. */
  ghost function LinksCrossed(views: seq<View>, p: Packet): nat
    decreases views
  {
    if views == [] then 0
    else match HopOf(views[0], p)
      case None => 0
      case Some(hop) => 1 + LinksCrossed(views[1..], hop.packet)
  }

  /** A packet with hop limit L crosses at most L - 1 links. */
  lemma {:induction false} HopLimitBounds(views: seq<View>, p: Packet)
    ensures LinksCrossed(views, p) <= if p.hopLimit == 0 then 0 else p.hopLimit - 1
    decreases views
  {
    if views != [] && HopOf(views[0], p).Some? {
      HopExactly(views[0], p);
      HopLimitBounds(views[1..], HopOf(views[0], p).value.packet);
    }
  }

  ghost predicate Relays(v: View, dst: IP) {
    && !IsMulticast(dst) && dst != v.addr && !IsExternal(v, dst)
    && Router.RouteTo(v.policy, dst).Some? && Router.RouteTo(v.policy, dst).value in v.sessions
  }

  /** A packet crosses a link exactly when it is for elsewhere, has a limit of at least two, no
      external route takes it, and the next hop has a session; it has then lost one. */
  lemma HopExactly(v: View, p: Packet)
    ensures HopOf(v, p).Some? <==> p.hopLimit >= 2 && Relays(v, p.dst)
    ensures HopOf(v, p).Some? ==>
            HopOf(v, p).value == Hop(Router.RouteTo(v.policy, p.dst).value, p.(hopLimit := p.hopLimit - 1))
  {
    SendBounds(v, p);
  }

  /** The bound is sharp: among nodes that all relay, the packet uses up its whole limit. */
  lemma {:induction false} HopLimitIsUsedUp(views: seq<View>, p: Packet)
    requires forall i :: 0 <= i < |views| ==> Relays(views[i], p.dst)
    ensures LinksCrossed(views, p)
            == if p.hopLimit == 0 then 0 else if |views| < p.hopLimit then |views| else p.hopLimit - 1
    decreases views
  {
    if views != [] {
      HopExactly(views[0], p);
      if p.hopLimit >= 2 {
        HopLimitIsUsedUp(views[1..], p.(hopLimit := p.hopLimit - 1));
      }
    }
  }

  // ----- out-of-band messages ------------------------------------------------------------

  datatype Oob = Oob(hops: Byte, src: IP, dst: IP, destPort: nat)

  datatype OobResult =
    | ToPort(message: Oob)
    | PortUnreachable
    | Expired
    | OobForwarded(next: IP, message: Oob)
    | OobNoSession

  const MaxOobHops: nat := 30

  /** msg.Hops++ on a byte. */
  function Incremented(hops: Byte): Byte {
    if hops >= 255 then 0 else hops + 1
  }

  ghost function SendOob(v: View, ports: set<nat>, m: Oob): OobResult {
    if m.dst == v.addr then
      if m.destPort in ports then ToPort(m) else PortUnreachable
    else
      var n := m.(hops := Incremented(m.hops));
      if n.hops >= MaxOobHops then Expired
      else
        var route := Router.RouteTo(v.policy, m.dst);
        var next := if route.Some? then route.value else m.dst;
        if next in v.sessions then OobForwarded(next, n) else OobNoSession
  }

  /** What becomes of every message: it is handed to an open port of its destination and refused at
      a closed one; elsewhere it expires, or goes, with its counter one higher, to the next hop of
      its destination, or to the destination itself when no entry matches. */
  lemma OobExactly(v: View, ports: set<nat>, m: Oob)
    ensures SendOob(v, ports, m) == ToPort(m) <==> m.dst == v.addr && m.destPort in ports
    ensures SendOob(v, ports, m).ToPort? ==> SendOob(v, ports, m) == ToPort(m)
    ensures SendOob(v, ports, m) == PortUnreachable <==> m.dst == v.addr && m.destPort !in ports
    ensures SendOob(v, ports, m) == Expired <==> m.dst != v.addr && 29 <= m.hops < 255
    ensures forall next, n :: SendOob(v, ports, m) == OobForwarded(next, n) ==>
              && m.dst != v.addr && next in v.sessions
              && (|| Router.IsNextHop(v.policy, m.dst, Some(next))
                  || (Router.IsNextHop(v.policy, m.dst, None) && next == m.dst))
              && n == m.(hops := if m.hops == 255 then 0 else m.hops + 1)
    ensures SendOob(v, ports, m) == OobNoSession <==>
              m.dst != v.addr && !(29 <= m.hops < 255) && !OobRelays(v, m.dst)
  {
  }

  ghost function OobLinks(views: seq<(View, set<nat>)>, m: Oob): nat
    decreases views
  {
    if views == [] then 0
    else match SendOob(views[0].0, views[0].1, m)
      case OobForwarded(_, n) => 1 + OobLinks(views[1..], n)
      case _ => 0
  }

  /** How many links a message can still cross.  A counter of 255, which no node sends, wraps to
      zero and gives the message a full life again. */
  function OobBudget(hops: Byte): nat {
    if hops == 255 then 30 else if hops >= 29 then 0 else 29 - hops
  }

  lemma {:induction false} OobBounds(views: seq<(View, set<nat>)>, m: Oob)
    ensures OobLinks(views, m) <= OobBudget(m.hops)
    decreases views
  {
    if views != [] {
      var r := SendOob(views[0].0, views[0].1, m);
      if r.OobForwarded? {
        OobBounds(views[1..], r.message);
      }
    }
  }

  ghost predicate OobRelays(v: View, dst: IP) {
    && dst != v.addr
    && (var route := Router.RouteTo(v.policy, dst); (if route.Some? then route.value else dst) in v.sessions)
  }

  /** The budget is sharp for every counter, 255 included. */
  lemma {:induction false} OobBudgetIsUsedUp(views: seq<(View, set<nat>)>, m: Oob)
    requires forall i :: 0 <= i < |views| ==> OobRelays(views[i].0, m.dst)
    ensures OobLinks(views, m) == if |views| < OobBudget(m.hops) then |views| else OobBudget(m.hops)
    decreases views
  {
    if views != [] {
      assert OobRelays(views[0].0, m.dst);
      var r := SendOob(views[0].0, views[0].1, m);
      if r.OobForwarded? {
        OobBudgetIsUsedUp(views[1..], r.message);
      }
    }
  }

  /** m' is what m has become after some nodes have passed it on. */
  ghost predicate OobBecomes(views: seq<(View, set<nat>)>, m: Oob, m': Oob)
    decreases views
  {
    if views == [] then m' == m
    else
      var r := SendOob(views[0].0, views[0].1, m);
      r.OobForwarded? && OobBecomes(views[1..], r.message, m')
  }

  /** A message written by a node starts at zero; its counter is the number of links crossed,
      stays below 30 and never wraps. */
  lemma {:induction false} OobCounterCounts(views: seq<(View, set<nat>)>, m: Oob, m': Oob)
    requires m.hops < MaxOobHops && OobBecomes(views, m, m')
    ensures m'.hops == m.hops + |views| < MaxOobHops && m'.dst == m.dst
    decreases views
  {
    if views != [] {
      OobCounterCounts(views[1..], SendOob(views[0].0, views[0].1, m).message, m');
    }
  }
}
