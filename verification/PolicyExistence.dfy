/** Every valid database has a correct policy.  The method that computes one shows it for
    executions; this is the same fact for use in proofs about runs. */
module PolicyExistence {
  import opened Address
  import opened Graph
  import opened Optional
  import opened Routes

  // ----- a graph -------------------------------------------------------------------------

  ghost predicate IsCovered(conns: Conns, p: IP) {
    exists c :: Covers(conns, p, c)
  }

  ghost function SomeCost(conns: Conns, p: IP): (cost: nat)
    requires ValidConns(conns) && IsCovered(conns, p)
    ensures exists c :: Covers(conns, p, c) && conns[c] == cost
  {
    var c :| Covers(conns, p, c);
    conns[c]
  }

  ghost function SomeRow(conns: Conns, peers: set<IP>): (row: map<IP, nat>)
    requires ValidConns(conns)
    ensures IsRow(conns, peers, row)
  {
    map p | p in peers && IsCovered(conns, p) :: SomeCost(conns, p)
  }

  ghost function SomeGraph(db: Database): (g: Graph<IP>)
    requires ValidDatabase(db)
    ensures IsInterconnect(db, g)
  {
    map u | u in db :: SomeRow(db[u], db.Keys)
  }

  // ----- host entries --------------------------------------------------------------------

  lemma FirstHopExists(g: Graph<IP>, me: IP, d: IP)
    requires d != me && Dist(g, me, d) < MaxCost
    ensures exists p :: FirstHop(g, me, d, p)
  {
    var w := ShortestWalk(g, me, d);
    FirstHopStartsShortestWalk(g, me, d, w.rest.v);
    assert w == Via(me, w.rest);
  }

  ghost function SomeFirstHop(g: Graph<IP>, me: IP, d: IP): (p: IP)
    requires d != me && Dist(g, me, d) < MaxCost
    ensures FirstHop(g, me, d, p)
  {
    FirstHopExists(g, me, d);
    var p :| FirstHop(g, me, d, p);
    p
  }

  ghost predicate Routable(g: Graph<IP>, me: IP, d: IP) {
    d != me && Dist(g, me, d) < MaxCost
  }

  /** The host subnets of the routable nodes. */
  ghost function HostKeys(g: Graph<IP>, me: IP, dests: set<IP>): set<Subnet> {
    set d | d in dests && Routable(g, me, d) :: HostOnly(d)
  }

  /** First hops laid down for some of the destinations. */
  ghost predicate ArePicks(g: Graph<IP>, me: IP, picks: map<IP, IP>) {
    forall d :: d in picks ==> FirstHop(g, me, d, picks[d])
  }

  ghost function SomeHosts(g: Graph<IP>, me: IP, dests: set<IP>, picks: map<IP, IP>): Policy
    requires forall d :: d in dests ==> |d| == 16
  {
    map k | k in HostKeys(g, me, dests) :: HostHop(g, me, dests, picks, k)
  }

  ghost function HostHop(g: Graph<IP>, me: IP, dests: set<IP>, picks: map<IP, IP>, k: Subnet): IP
    requires k in HostKeys(g, me, dests)
  {
    var d :| d in dests && Routable(g, me, d) && k == HostOnly(d);
    if d in picks then picks[d] else SomeFirstHop(g, me, d)
  }

  lemma HostHopIsFirst(g: Graph<IP>, me: IP, dests: set<IP>, picks: map<IP, IP>, d: IP)
    requires d in dests && Routable(g, me, d) && ArePicks(g, me, picks)
    ensures HostOnly(d) in HostKeys(g, me, dests) && FirstHop(g, me, d, HostHop(g, me, dests, picks, HostOnly(d)))
    ensures d in picks ==> HostHop(g, me, dests, picks, HostOnly(d)) == picks[d]
  {
    forall e | e in dests && HostOnly(e) == HostOnly(d) ensures e == d {
      HostOnlyInjective(e, d);
    }
  }

  lemma SomeHostsRoute(g: Graph<IP>, me: IP, dests: set<IP>, picks: map<IP, IP>)
    requires ArePicks(g, me, picks) && forall d :: d in dests ==> |d| == 16
    ensures NodeRoutes(g, me, dests, SomeHosts(g, me, dests, picks)) && OnlyHosts(dests, SomeHosts(g, me, dests, picks))
  {
    var hosts := SomeHosts(g, me, dests, picks);
    forall d | d in dests
      ensures HostOnly(d) in hosts <==> d != me && Dist(g, me, d) < MaxCost
      ensures HostOnly(d) in hosts ==> FirstHop(g, me, d, hosts[HostOnly(d)])
    {
      if Routable(g, me, d) {
        HostHopIsFirst(g, me, dests, picks, d);
      } else {
        forall e | e in dests && Routable(g, me, e) ensures HostOnly(e) != HostOnly(d) {
          HostOnlyInjective(e, d);
        }
      }
    }
  }

  // ----- subnet entries ------------------------------------------------------------------

  ghost function AdvertisersOf(db: Database, s: Subnet): (advertisers: set<IP>)
    ensures forall n :: n in advertisers <==> Advertises(db, n, s)
  {
    set n | n in db && Advertises(db, n, s)
  }

  ghost function SubnetsOf(db: Database): (subnets: set<Subnet>)
    ensures forall s :: s in subnets <==> IsSubnet(db, s)
  {
    set n, s | n in db && s in db[n] && Advertises(db, n, s) :: s
  }

  lemma {:induction false} NearestOf(g: Graph<IP>, me: IP, hosts: Policy, s: set<IP>) returns (n: IP)
    requires s != {}
    ensures n in s && forall m :: m in s ==> Dist(g, me, ViaOf(hosts, n)) <= Dist(g, me, ViaOf(hosts, m))
  {
    n :| n in s;
    if s != {n} {
      var m := NearestOf(g, me, hosts, s - {n});
      n := if Dist(g, me, ViaOf(hosts, m)) <= Dist(g, me, ViaOf(hosts, n)) then m else n;
    }
  }

  lemma ChoiceExists(db: Database, g: Graph<IP>, me: IP, hosts: Policy, s: Subnet)
    requires IsSubnet(db, s)
    ensures exists entry :: SubnetChoice(db, g, me, hosts, s, entry)
  {
    if forall n :: Advertises(db, n, s) ==> HostOnly(n) in hosts {
      var any :| Advertises(db, any, s);
      assert any in AdvertisersOf(db, s);
      var n := NearestOf(g, me, hosts, AdvertisersOf(db, s));
      assert SubnetChoice(db, g, me, hosts, s, Some(ViaOf(hosts, n)));
    } else {
      assert SubnetChoice(db, g, me, hosts, s, None);
    }
  }

  ghost function SomeChoice(db: Database, g: Graph<IP>, me: IP, hosts: Policy, s: Subnet): (entry: Option<IP>)
    requires IsSubnet(db, s)
    ensures SubnetChoice(db, g, me, hosts, s, entry)
  {
    ChoiceExists(db, g, me, hosts, s);
    var entry :| SubnetChoice(db, g, me, hosts, s, entry);
    entry
  }

  ghost function SomeSubnets(db: Database, g: Graph<IP>, me: IP, hosts: Policy): Policy {
    map s | s in SubnetsOf(db) && SomeChoice(db, g, me, hosts, s).Some? :: SomeChoice(db, g, me, hosts, s).value
  }

  lemma SomeSubnetsChosen(db: Database, g: Graph<IP>, me: IP, hosts: Policy)
    requires ValidDatabase(db) && OnlyHosts(db.Keys, hosts)
    ensures Chosen(db, g, me, hosts, SubnetsOf(db), hosts + SomeSubnets(db, g, me, hosts))
  {
    var policy := hosts + SomeSubnets(db, g, me, hosts);
    forall s | s in SubnetsOf(db) ensures SubnetChoice(db, g, me, hosts, s, EntryOf(policy, s)) {
      SubnetHasNoHostEntry(db, hosts, s);
      assert EntryOf(policy, s) == SomeChoice(db, g, me, hosts, s);
    }
  }

  /** A correct policy for any graph of the database and any first hops laid down. */
  lemma CorrectPolicyFor(db: Database, g: Graph<IP>, me: IP, picks: map<IP, IP>) returns (policy: Policy)
    requires ValidDatabase(db) && IsInterconnect(db, g) && ArePicks(g, me, picks)
    ensures CorrectPolicy(db, g, me, policy)
    ensures forall d :: d in picks && d in db && d != me ==> HostOnly(d) in policy && policy[HostOnly(d)] == picks[d]
  {
    var hosts := SomeHosts(g, me, db.Keys, picks);
    SomeHostsRoute(g, me, db.Keys, picks);
    SomeSubnetsChosen(db, g, me, hosts);
    policy := hosts + SomeSubnets(db, g, me, hosts);
    ChosenIsCorrect(db, g, me, hosts, SubnetsOf(db), policy);
    forall d | d in picks && d in db && d != me ensures HostOnly(d) in policy && policy[HostOnly(d)] == picks[d] {
      PickedHost(g, me, db.Keys, picks, d);
      HostEntriesAgree(db, hosts, policy, d);
    }
  }

  /** Every valid database has a correct policy for every node. */
  lemma CorrectPolicyExists(db: Database, me: IP) returns (policy: Policy)
    requires ValidDatabase(db)
    ensures exists g :: CorrectPolicy(db, g, me, policy)
  {
    policy := CorrectPolicyFor(db, SomeGraph(db), me, map[]);
  }

  // ----- a policy with a given entry -----------------------------------------------------

  lemma ReplaceChosen(db: Database, g: Graph<IP>, me: IP, hosts: Policy, done: set<Subnet>, before: Policy, s: Subnet,
                      p: IP)
    requires Chosen(db, g, me, hosts, done, before) && s in done && SubnetChoice(db, g, me, hosts, s, Some(p))
    ensures Chosen(db, g, me, hosts, done, before[s := p])
  {
    forall t | t != s ensures EntryOf(before[s := p], t) == EntryOf(before, t) {
    }
  }

  lemma PickedHost(g: Graph<IP>, me: IP, dests: set<IP>, picks: map<IP, IP>, d: IP)
    requires ArePicks(g, me, picks) && d in picks && d in dests && d != me && forall e :: e in dests ==> |e| == 16
    ensures HostOnly(d) in SomeHosts(g, me, dests, picks) && ViaOf(SomeHosts(g, me, dests, picks), d) == picks[d]
  {
    assert FirstHop(g, me, d, picks[d]);
    HostHopIsFirst(g, me, dests, picks, d);
  }

  /** A correct policy for any choice of first hops towards the advertisers of s, with any one of
      them that none of the others is nearer than as the entry of s. */
  lemma PolicyWithEntry(db: Database, g: Graph<IP>, me: IP, s: Subnet, picks: map<IP, IP>, n: IP)
    returns (policy: Policy)
    requires ValidDatabase(db) && IsInterconnect(db, g) && ArePicks(g, me, picks)
    requires forall m :: Advertises(db, m, s) ==> m != me && m in picks
    requires Advertises(db, n, s) && forall m :: Advertises(db, m, s) ==> Dist(g, me, picks[n]) <= Dist(g, me, picks[m])
    ensures CorrectPolicy(db, g, me, policy) && s in policy && policy[s] == picks[n]
  {
    var hosts := SomeHosts(g, me, db.Keys, picks);
    SomeHostsRoute(g, me, db.Keys, picks);
    forall m | Advertises(db, m, s) ensures HostOnly(m) in hosts && ViaOf(hosts, m) == picks[m] {
      PickedHost(g, me, db.Keys, picks, m);
    }
    assert SubnetChoice(db, g, me, hosts, s, Some(picks[n]));
    SomeSubnetsChosen(db, g, me, hosts);
    var before := hosts + SomeSubnets(db, g, me, hosts);
    ReplaceChosen(db, g, me, hosts, SubnetsOf(db), before, s, picks[n]);
    policy := before[s := picks[n]];
    ChosenIsCorrect(db, g, me, hosts, SubnetsOf(db), policy);
  }
}
