/** The router object of pkg/router/router.go: a node database, a policy computed from it by a
    delayed recalculation, and longest-prefix lookup in the policy. */
module Router {
  import opened Address
  import opened Graph
  import opened Optional
  import opened Routes

  // ----- lookup --------------------------------------------------------------------------

  predicate Matches(policy: Policy, dest: IP, k: Subnet) {
    k in policy && Contains(k, dest)
  }

  ghost predicate MostSpecific(policy: Policy, dest: IP, k: Subnet) {
    Matches(policy, dest, k) && forall other :: Matches(policy, dest, other) ==> Prefix(other) <= Prefix(k)
  }

  /** r is the next hop of some most specific matching entry, or nothing when none matches. */
  ghost predicate IsNextHop(policy: Policy, dest: IP, r: Option<IP>) {
    match r
    case None => forall k :: !Matches(policy, dest, k)
    case Some(hop) => exists k :: MostSpecific(policy, dest, k) && policy[k] == hop
  }

  ghost predicate CIDRPolicy(policy: Policy) {
    forall k :: k in policy ==> IsCIDR(k)
  }

  ghost predicate CIDRConns(conns: Conns) {
    forall s :: s in conns ==> IsCIDR(s)
  }

  ghost predicate CIDRDatabase(db: Database) {
    forall n :: n in db ==> CIDRConns(db[n])
  }

  /** Over CIDR entries the longest match is one entry, whatever the order of the scan. */
  lemma NextHopUnique(policy: Policy, dest: IP, r: Option<IP>, t: Option<IP>)
    requires CIDRPolicy(policy) && IsNextHop(policy, dest, r) && IsNextHop(policy, dest, t)
    ensures r == t
  {
    if r.Some? && t.Some? {
      var k :| MostSpecific(policy, dest, k) && policy[k] == r.value;
      var l :| MostSpecific(policy, dest, l) && policy[l] == t.value;
      SamePrefixSameSubnet(k, l, dest);
    }
  }

  lemma {:induction false} LongestOf(s: set<Subnet>) returns (k: Subnet)
    requires s != {}
    ensures k in s && forall o :: o in s ==> Prefix(o) <= Prefix(k)
  {
    k :| k in s;
    if s != {k} {
      var l := LongestOf(s - {k});
      k := if Prefix(l) >= Prefix(k) then l else k;
    }
  }

  lemma NextHopExists(policy: Policy, dest: IP) returns (r: Option<IP>)
    ensures IsNextHop(policy, dest, r)
  {
    var matching := set k | k in policy && Matches(policy, dest, k);
    assert forall k :: Matches(policy, dest, k) ==> k in matching;
    if matching == {} {
      r := None;
    } else {
      var k := LongestOf(matching);
      assert MostSpecific(policy, dest, k);
      r := Some(policy[k]);
    }
  }

  /** The result of a lookup in a policy. */
  ghost function RouteTo(policy: Policy, dest: IP): (r: Option<IP>)
    ensures IsNextHop(policy, dest, r)
  {
    assert exists r :: IsNextHop(policy, dest, r) by { var r0 := NextHopExists(policy, dest); }
    var r :| IsNextHop(policy, dest, r);
    r
  }

  /** Lookups do not depend on the order of the scan. */
  ghost predicate Deterministic(policy: Policy) {
    forall dest, r, t :: IsNextHop(policy, dest, r) && IsNextHop(policy, dest, t) ==> r == t
  }

  lemma CIDRIsDeterministic(policy: Policy)
    requires CIDRPolicy(policy)
    ensures Deterministic(policy)
  {
    forall dest, r, t | IsNextHop(policy, dest, r) && IsNextHop(policy, dest, t) ensures r == t {
      NextHopUnique(policy, dest, r, t);
    }
  }

  lemma RouteToIs(policy: Policy, dest: IP, r: Option<IP>)
    requires CIDRPolicy(policy) && IsNextHop(policy, dest, r)
    ensures RouteTo(policy, dest) == r
  {
    NextHopUnique(policy, dest, r, RouteTo(policy, dest));
  }

  lemma CorrectPolicyIsCIDR(db: Database, g: Graph<IP>, me: IP, policy: Policy)
    requires ValidDatabase(db) && CIDRDatabase(db) && CorrectPolicy(db, g, me, policy)
    ensures CIDRPolicy(policy)
  {
    forall k | k in policy ensures IsCIDR(k) {
      if IsSubnet(db, k) {
        var n :| Advertises(db, n, k);
      } else {
        var d :| d in db && k == HostOnly(d);
        HostOnlyIsExact(d);
      }
    }
  }

  /** A known node's address is looked up to its own host entry, however many wider subnets
      cover the address. */
  lemma NextHopOfNode(db: Database, g: Graph<IP>, me: IP, policy: Policy, d: IP, r: Option<IP>)
    requires ValidDatabase(db) && CIDRDatabase(db) && CorrectPolicy(db, g, me, policy)
    requires d in db && d != me && Dist(g, me, d) < MaxCost && IsNextHop(policy, d, r)
    ensures r == Some(policy[HostOnly(d)]) && FirstHop(g, me, d, policy[HostOnly(d)])
  {
    CorrectPolicyIsCIDR(db, g, me, policy);
    HostOnlyIsExact(d);
    forall k | Matches(policy, d, k) ensures Prefix(k) <= 128 {
      PrefixBound(k);
    }
    assert MostSpecific(policy, d, HostOnly(d));
    NextHopUnique(policy, d, r, Some(policy[HostOnly(d)]));
  }

  // ----- the object's state as a value ---------------------------------------------------

  datatype State = State(nodes: Database, policy: Policy, pending: bool)

  /** UpdateNode leaves an unchanged entry alone and schedules nothing for it. */
  function AfterUpdate(s: State, node: IP, conns: Conns): State {
    if node in s.nodes && s.nodes[node] == conns then s
    else s.(nodes := s.nodes[node := conns], pending := true)
  }

  lemma UpdatedNodes(s: State, node: IP, conns: Conns)
    ensures AfterUpdate(s, node, conns).nodes == s.nodes[node := conns]
  {
  }

  function AfterRemove(s: State, node: IP): State {
    if node in s.nodes then s.(nodes := s.nodes - {node}, pending := true) else s
  }

  /** Whenever no recalculation is pending, the stored policy is right for the database. */
  ghost predicate Coherent(me: IP, s: State) {
    !s.pending ==> ValidDatabase(s.nodes) && exists g :: CorrectPolicy(s.nodes, g, me, s.policy)
  }

  /** Removal of several nodes, one after the other. */
  function AfterRemoveAll(s: State, gone: set<IP>): State {
    s.(nodes := s.nodes - gone, pending := s.pending || s.nodes.Keys * gone != {})
  }

  lemma RemoveNone(s: State)
    ensures AfterRemoveAll(s, {}) == s
  {
    assert s.nodes - {} == s.nodes;
  }

  lemma RemoveOneMore(s: State, gone: set<IP>, node: IP)
    ensures AfterRemove(AfterRemoveAll(s, gone), node) == AfterRemoveAll(s, gone + {node})
  {
    assert s.nodes - gone - {node} == s.nodes - (gone + {node});
    if node in s.nodes && node !in gone {
      assert node in s.nodes.Keys * (gone + {node});
    } else {
      assert s.nodes.Keys * (gone + {node}) == s.nodes.Keys * gone;
    }
  }

  /** A coherent router with a valid database, all of whose subnets are in CIDR form. */
  ghost predicate Sound(me: IP, s: State) {
    Coherent(me, s) && ValidDatabase(s.nodes) && CIDRDatabase(s.nodes) && CIDRPolicy(s.policy)
  }

  lemma RecalculateKeepsSound(me: IP, s: State, policy: Policy)
    requires Sound(me, s) && Possible(me, s, Recalculated(policy))
    ensures Sound(me, After(s, Recalculated(policy)))
  {
    var g :| CorrectPolicy(s.nodes, g, me, policy);
    CorrectPolicyIsCIDR(s.nodes, g, me, policy);
  }

  lemma UpdateKeepsSound(me: IP, s: State, node: IP, conns: Conns)
    requires Sound(me, s) && |node| == 16 && ValidConns(conns) && CIDRConns(conns)
    ensures Sound(me, AfterUpdate(s, node, conns))
  {
    assert ValidDatabase(s.nodes[node := conns]) && CIDRDatabase(s.nodes[node := conns]);
  }

  lemma RemoveAllKeepsCoherent(me: IP, s: State, gone: set<IP>)
    requires Coherent(me, s)
    ensures Coherent(me, AfterRemoveAll(s, gone))
  {
    if s.nodes.Keys * gone == {} {
      forall n | n in s.nodes ensures n !in gone {
        assert n in gone ==> n in s.nodes.Keys * gone;
      }
      assert s.nodes - gone == s.nodes;
    }
  }

  lemma RemoveAllKeepsSound(me: IP, s: State, gone: set<IP>)
    requires Sound(me, s)
    ensures Sound(me, AfterRemoveAll(s, gone))
  {
    RemoveAllKeepsCoherent(me, s, gone);
  }

  datatype Event = Update(node: IP, conns: Conns) | Remove(node: IP) | Recalculated(policy: Policy)

  ghost predicate Possible(me: IP, s: State, e: Event) {
    match e
    case Update(node, _) => node != []
    case Remove(_) => true
    case Recalculated(policy) => ValidDatabase(s.nodes) && exists g :: CorrectPolicy(s.nodes, g, me, policy)
  }

  function After(s: State, e: Event): State {
    match e
    case Update(node, conns) => AfterUpdate(s, node, conns)
    case Remove(node) => AfterRemove(s, node)
    case Recalculated(policy) => s.(policy := policy, pending := false)
  }

  ghost predicate IsRun(me: IP, s: State, events: seq<Event>)
    decreases events
  {
    events == [] || (Possible(me, s, events[0]) && IsRun(me, After(s, events[0]), events[1..]))
  }

  function RunFrom(s: State, events: seq<Event>): State
    decreases events
  {
    if events == [] then s else RunFrom(After(s, events[0]), events[1..])
  }

  const Initial := State(map[], map[], false)

  lemma InitialCoherent(me: IP)
    ensures Coherent(me, Initial)
  {
    assert CorrectPolicy(map[], map[], me, map[]);
  }

  lemma InitialIsSound(me: IP)
    ensures Sound(me, Initial)
  {
    InitialCoherent(me);
  }

  /** The policy cache stays coherent over every run of updates, removals and
      recalculations. */
  lemma {:induction false} RunCoherent(me: IP, s: State, events: seq<Event>)
    requires Coherent(me, s) && IsRun(me, s, events)
    ensures Coherent(me, RunFrom(s, events))
    decreases events
  {
    if events != [] {
      RunCoherent(me, After(s, events[0]), events[1..]);
    }
  }

  // ----- change detection ----------------------------------------------------------------

  lemma {:induction false} SubsetOfSameSize<T>(a: set<T>, b: set<T>)
    requires a <= b && |a| == |b|
    ensures a == b
  {
    if x :| x in b && x !in a {
      assert a <= b - {x};
      SubsetSize(a, b - {x});
    }
  }

  lemma {:induction false} SubsetSize<T>(a: set<T>, b: set<T>)
    requires a <= b
    ensures |a| <= |b|
  {
    if a != {} {
      var x :| x in a;
      SubsetSize(a - {x}, b - {x});
    }
  }

  /** The comparison of the stored and the new policy: equal sizes and every old entry kept. */
  method Changed(policy: Policy, newPolicy: Policy) returns (changed: bool)
    ensures changed <==> policy != newPolicy
  {
    changed := false;
    if |policy| != |newPolicy| {
      changed := true;
    } else {
      var left := policy.Keys;
      while left != {} && !changed
        invariant left <= policy.Keys
        invariant changed ==> policy != newPolicy
        invariant !changed ==> forall k :: k in policy && k !in left ==> k in newPolicy && newPolicy[k] == policy[k]
        decreases |left|
      {
        var k :| k in left;
        left := left - {k};
        if k !in newPolicy || newPolicy[k] != policy[k] {
          changed := true;
        }
      }
      if !changed {
        assert |policy.Keys| == |newPolicy.Keys|;
        SubsetOfSameSize(policy.Keys, newPolicy.Keys);
      }
    }
  }

  // ----- the object ----------------------------------------------------------------------

  class Router {
    const me: IP
    var nodes: Database
    var policy: Policy
    /** A recalculation has been scheduled and has not run yet. */
    var pending: bool
    /** The policies sent to subscribers. */
    var published: seq<Policy>

    ghost predicate Valid()
      reads this
    {
      Coherent(me, Now())
    }

    function Now(): State
      reads this
    {
      State(nodes, policy, pending)
    }

    constructor (myAddr: IP)
      ensures Valid() && me == myAddr && Now() == Initial && published == []
    {
      me, nodes, policy, pending, published := myAddr, map[], map[], false, [];
      new;
      InitialCoherent(me);
    }

    /** The source panics on the empty address. */
    method UpdateNode(node: IP, conns: Conns)
      requires Valid() && node != []
      modifies `nodes, `pending
      ensures Valid() && Now() == AfterUpdate(old(Now()), node, conns)
    {
      if node in nodes && nodes[node] == conns {
        return;
      }
      nodes := nodes[node := conns];
      pending := true;
    }

    method RemoveNode(node: IP)
      requires Valid()
      modifies `nodes, `pending
      ensures Valid() && Now() == AfterRemove(old(Now()), node)
    {
      if node in nodes {
        nodes := nodes - {node};
        pending := true;
      }
    }

    /** With costs that are not positive the search need not end. */
    method Recalculate()
      requires Valid() && ValidDatabase(nodes)
      modifies `policy, `pending, `published
      ensures Valid() && !pending
      ensures published == old(published) + [policy]
      ensures Possible(me, old(Now()), Recalculated(policy)) && Now() == After(old(Now()), Recalculated(policy))
    {
      var newPolicy := ComputePolicy(nodes, me);
      var changed := Changed(policy, newPolicy);
      if changed {
        policy := newPolicy;
      }
      published := published + [newPolicy];
      pending := false;
    }

    method NextHop(dest: IP) returns (hop: Option<IP>)
      ensures IsNextHop(policy, dest, hop)
    {
      hop := None;
      var longestPrefix: int := -1;
      ghost var best := [];
      var left := policy.Keys;
      while left != {}
        invariant left <= policy.Keys
        invariant longestPrefix >= -1
        invariant longestPrefix == -1 ==> hop == None && forall k :: Matches(policy, dest, k) ==> k in left
        invariant longestPrefix >= 0 ==>
                    && Matches(policy, dest, best) && Prefix(best) == longestPrefix && hop == Some(policy[best])
                    && forall k :: Matches(policy, dest, k) && k !in left ==> Prefix(k) <= longestPrefix
      {
        var k :| k in left;
        left := left - {k};
        if Contains(k, dest) {
          var prefix := Prefix(k);
          if prefix > longestPrefix {
            hop := Some(policy[k]);
            longestPrefix := prefix;
            best := k;
          }
        }
      }
      if longestPrefix == -1 {
        hop := None;
      } else {
        assert MostSpecific(policy, dest, best);
      }
    }
  }
}
