# Connectopus routing, verified in Dafny

Connectopus is an IPv6 overlay network. Every node floods a description of its own connections
to all others, computes next hops from the descriptions it holds, and forwards packets from
session to session. This project models that routing stack in Dafny and proves what it promises.
`dafny verify dfyconfig.toml` checks all of it.

The main results, from the bottom up:

- **Route computation.** For every database with positive costs, and for every order in which the
  queue gives its elements back, the relaxation loop ends with exact distances, the predecessor
  walk ends at the first hop of a shortest path, and the stored policy stays right for the database
  over every run of updates, removals and recalculations (`Search`, `Routes`, `Router`).
- **Loop freedom.** If all nodes have recalculated from one unambiguous database, following
  `NextHop` to any node's address takes a shortest path, visits no node twice and arrives within
  |nodes| - 1 links (`LoopFreedom`).
- **Addresses behind several nodes.** `Anycast` has two exact conditions on the graph alone: when a
  node is sure to send packets towards a nearest advertiser of the longest matching subnet, and when
  packets are sure to arrive at an advertiser from everywhere, which is when the graph has no trap.
  A four-node network has one: two neighbours send a packet to each other for ever. A sole advertiser
  is always reached like a node, whoever advertises wider subnets.
- **Flooding.** Under loss, duplication, reordering, pruning, restarts and session changes, what a
  node stores is what the origin generated (`Flood`). Without forgetting, N nodes make at most
  N * N - 1 deliveries for each update (`FloodTermination`). Once sessions stay as they are and
  nothing is lost or pruned, whatever happened before, a node's latest announcement is held by every
  node within its reach as soon as nothing is on its way to them; among nodes that never restarted the
  databases are identical (`Agreement`).
- **End to end.** Take any reachable state with symmetric sessions and let it run on without loss,
  pruning, restarts or session changes. Look whenever, among the nodes within reach of u, no update is
  on its way, no recalculation is pending and every node has announced its current connections again.
  Then packets between them are delivered over cheapest chains of sessions, however the routers
  recalculate, if and only if no external route of one contains the address of another and no stale
  announcement offers a first hop that is none over sessions; each packet arrives exactly if its hop
  limit exceeds the number of links (`EndToEnd`). Packets for an address behind a node leave the
  overlay there if and only if no other node has an external route for it. Every network with symmetric
  sessions and external routes clear of the nodes' addresses can get to a state in which all packets
  are delivered, after any run whatever (`Settling`). Out-of-band messages get to an open port exactly
  over ways of at most 29 links.
- **Configuration.** A node's configuration is always one from its files or one whose signature
  checks, with the version of its data (`ConfigCoherence`). It spreads: after any run whatever, once
  the nodes within reach have announced themselves twice, with nothing left on its way after each
  round, every one that takes configurations and accepts the signature of a newest configuration has
  its version (`Spreading`).
- **Forwarding, addresses, wire formats.** `Forwarding`, `Address`, `RandomSubnets`, `Framing`, `Wire`.
  The objects of the source, with their fields updated in place, are `Router.Router`,
  `Netopus.Netopus` and `Framing.TcpBackend`.

## Modelling decisions

- **Costs** are whole numbers of the smallest positive float32, so every float32 is represented
  exactly and `MaxFloat32` is the constant `MaxCost`. Rounding in sums is not modelled.
- **The queue** is a set: inserting makes an element queued, popping returns any element.
- **Map iteration** is an arbitrary choice of the next key.
- **Missing map keys** read as in Go: no next hop reads as the empty address, its cost as zero, and
  an unknown origin as version (0, 0).
- **Steps.** One iteration of a session's reader, of the update sender or of the dead-node monitor
  is one step. A pending recalculation is a flag; the timer is a step that may come at any time.
- **Clocks, randomness and files** are parameters: which nodes are stale, a node's start time, the
  random number, whether the configuration files could be written. Parsing a configuration and
  checking its signature are uninterpreted functions.
- **Requirements on callers.** Recalculation asks for sixteen-byte node addresses and positive
  costs. `netopus.New` rejects other lengths, costs that are not positive are replaced, and the flood
  is proved to carry nothing else, as long as no node has an IPv4-mapped address: `New` accepts one,
  but JSON decoding shortens it to four bytes, which the model does not do. Where the result of a
  lookup matters, external routes are asked to be CIDR subnets, as `ParseCIDR` and
  `NewHostOnlySubnet` make them; with others map order can decide between two entries.
- **IPv4.** Subnet matching includes four-byte and IPv4-mapped addresses as Go's `net` package
  treats them.

## Findings

- An external route that contains another node's address captures the packets for that node at
  every node that has the route (`EndToEnd.CapturedNeverArrives`), and adds an edge to the routers'
  graph that no session backs. Nothing in `AddExternalRoute` prevents it. Among nodes that know only
  each other, exactly the networks without such a route deliver everything
  (`EndToEnd.DeliveryAmongKnown`). Nodes that still know a node out of reach also need that its stale
  announcement, together with a route over its address, offers no cheaper way
  (`EndToEnd.DeliveryExactly`). A route that contains the node's own address does no harm.
- A node tries its own external routes before the routing policy, so a node with a wide route keeps
  its packets for a more specific subnet that another node advertises (`EndToEnd.CaptorKeeps`).
  Packets follow the longest match from everywhere exactly in networks without such nodes
  (`EndToEnd.LeavingExactly`).
- One advertiser of a subnet that is local or unreachable removes the route to that subnet
  (`Routes.SubnetRouteExactly`, `Anycast.LostAdvertiserTakesRoute`).
- Subnet routes with two advertisers can loop (`Anycast.TwoAdvertisersLoop`), because the choice
  compares the distances to the first hops. `Anycast.ArrivalExactly` says for every graph whether
  packets can loop, `Anycast.AnycastExactly` whether they take a shortest way.
- `NewSubnet` of an IPv4-mapped address with a mask shorter than 96 bits does not contain the
  address (`Address.OwnSubnetContains`, `Address.MappedOutsideOwnSubnet`).
- `Msg.Type` reads a message that starts with a zero byte as an IPv6 packet
  (`Wire.PacketsAreNotConfused`).
- An out-of-band message that arrives with hop counter 255 wraps to zero and may cross thirty more
  links (`Forwarding.OobBudgetIsUsedUp`). No node sends one (`Forwarding.OobCounterCounts`).
- Nothing stops an operator from giving a node an older configuration, so what a finished
  convergence wait has established lasts exactly as long as none does
  (`ConfigCoherence.ConvergenceLastsExactly`, `ConfigCoherence.OlderConfigSetsBack`).

## Model

| member | source | states |
|---|---|---|
| Search.RelaxEdge | pkg/router/router.go:132-139 | relaxing one edge keeps labels above the distances and predecessor edges at most tight; it either changes nothing or lowers the total of the labels |
| Search.RelaxFrom | pkg/router/router.go:130-139 | after a popped node's edges, every edge out of an unqueued node is relaxed |
| Search.DrainQueue | pkg/router/router.go:129-140 | the loop ends for every pop order, although popped nodes are queued again, with all edges relaxed |
| Search.ShortestPaths | pkg/router/router.go:116-140 | the labels are the exact distances, capped at MaxFloat32, and every predecessor edge is tight |
| Search.SettledIsExact | pkg/router/router.go:129-140 | labels that no edge improves equal the cost of a cheapest walk, unreachable nodes included |
| Graph.DistIsLeast | pkg/router/router.go:88-140 | the reference: a distance is below every walk's cost, and a walk attains it unless there is none cheaper than MaxFloat32 |
| Graph.FirstHopStartsShortestWalk | pkg/router/router.go:141-153 | a first hop is exactly the second node of some shortest walk |
| Routes.EdgeCost | pkg/router/router.go:96-100 | an edge gets the cost of one of the connections that contain the peer, and exists only if there is one |
| Routes.BuildInterconnect | pkg/router/router.go:91-101 | edges exist exactly to the known nodes that a connection contains |
| Routes.InterconnectUnique | pkg/router/router.go:96-99 | without ambiguous costs map order does not matter |
| Routes.CollectSubnets | pkg/router/router.go:102-115 | a subnet's candidates are exactly its advertisers, host routes of known nodes excluded |
| Routes.WalkBack | pkg/router/router.go:142-153 | the predecessor walk ends; it finds a hop exactly for reachable remote nodes, and the hop starts a shortest walk |
| Routes.NodePolicy | pkg/router/router.go:141-153 | host entries exactly for the reachable remote nodes, each a shortest walk's first hop, and nothing else |
| Routes.BestCandidate | pkg/router/router.go:155-166 | a hop is chosen exactly when all candidates have one, and it is the cheapest of theirs |
| Routes.SubnetPolicy | pkg/router/router.go:154-167 | subnet entries follow from the host entries, which they never overwrite |
| Routes.SubnetRouteExactly | pkg/router/router.go:154-167 | a subnet has a route exactly when all its advertisers are reachable remote nodes; the route starts a shortest walk to one of them and is cheapest among first hops |
| Routes.ComputePolicy | pkg/router/router.go:88-167 | the policy is right for the database |
| Router.Changed | pkg/router/router.go:168-180 | equal sizes and kept entries decide equality |
| Router.Router.UpdateNode | pkg/router/router.go:63-75 | for any non-empty address and any costs, an unchanged entry changes nothing; any other is stored and schedules a recalculation |
| Router.Router.RemoveNode | pkg/router/router.go:77-86 | a known node is removed and schedules a recalculation |
| Router.Router.Recalculate | pkg/router/router.go:88-187 | afterwards the stored policy is right for the database and has been published |
| Router.RunCoherent | pkg/router/router.go:63-187 | over every run, whenever no recalculation is pending the stored policy is right for the current database |
| Router.Router.NextHop | pkg/router/router.go:191-209 | the hop of a most specific matching entry, or an error exactly when none matches |
| Router.NextHopUnique | pkg/router/router.go:194-204 | the result does not depend on map order |
| Router.NextHopOfNode | pkg/router/router.go:191-209 | a reachable node's address is looked up to its own host entry, whatever wider subnets cover it |
| LoopFreedom.UnambiguousConverges | pkg/router/router.go:88-167 | nodes with one unambiguous database agree about the graph |
| LoopFreedom.TrajectoryDescends | pkg/router/router.go:191-209 | each link shortens the exact distance to the nearest target by its own cost, on ways of any length |
| LoopFreedom.LoopFree | pkg/router/router.go:129-153 | no node is visited twice, at most nodes - 1 links are crossed, and an arrival is at a nearest target over a shortest path |
| LoopFreedom.NodeDelivery | pkg/router/router.go:129-209 | following NextHop to a reachable node arrives, along a shortest path |
| LoopFreedom.EntryCanWin | pkg/router/router.go:154-167 | a subnet's entry leads towards some advertiser, and every advertiser may have a first hop that is no nearer |
| LoopFreedom.BehindEntry | pkg/router/router.go:191-209 | the lookup of an address gives the entry of the longest advertised subnet, whoever advertises wider ones, and that entry is a first hop that can win |
| LoopFreedom.AnycastDelivery | pkg/router/router.go:154-209 | for an address whose longest subnet any set of nodes advertises, if every first hop that can win leads to a nearest one at every node, packets arrive at a nearest one over a shortest path without visiting a node twice |
| LoopFreedom.SoleAdvertiserDelivery | pkg/router/router.go:154-209 | the same without a condition for an address whose longest subnet one node alone advertises |
| Anycast.AnycastExactly | pkg/router/router.go:154-167 | every correct policy of a node sends a subnet towards a nearest advertiser if and only if every first hop that can win leads to a nearest one |
| Anycast.ArrivalExactly | pkg/router/router.go:154-209 | if all advertisers can be reached from everywhere, packets arrive from every node under every converged set of policies if and only if no set of nodes without advertiser can keep picking first hops within itself |
| Anycast.LostIsTrap | pkg/router/router.go:154-209 | the nodes whose packets do not arrive are such a set |
| Anycast.SteeringHasNoTrap | pkg/router/router.go:154-167 | where all nodes steer towards a nearest advertiser there is none |
| Anycast.WinnerHasPolicy | pkg/router/router.go:154-167 | whatever first hop can win is the entry of some correct policy |
| Anycast.RingDoesNotSteer | pkg/router/router.go:159-159 | the four-node network violates the condition for nearest advertisers |
| Anycast.RingHasTrap | pkg/router/router.go:159-159 | and its two middle nodes are a trap |
| Anycast.LostAdvertiserTakesRoute | pkg/router/router.go:155-166 | a three-node database in which an unreachable advertiser leaves a neighbouring one without route |
| Anycast.TwoAdvertisersLoop | pkg/router/router.go:154-167 | with two advertisers two neighbours can forward to each other for ever, though both reach both |
| Node.GeneratedIsGood | pkg/netopus/netopus.go:811-824 | a node with positive session and route costs announces positive costs, and CIDR subnets if its external routes are such |
| Node.AnnouncedExactly | pkg/netopus/netopus.go:812-824 | exactly the sessions' peers and the routes' destinations are announced, each at the cost of a route to it or else of the session |
| Node.GeneratedCarries | pkg/netopus/netopus.go:831-844 | data and signature of the own configuration are attached exactly when a known node's version is older |
| Node.ChecksByKey | pkg/connectopus/connectopus.go:71-87 | a key list accepts exactly what one of its keys accepts, and nil keys stand for the configuration's own |
| Node.AcceptsExactly | pkg/netopus/netopus.go:862-880 | the tests accept exactly the updates of others that are newer than what is known |
| Node.FloatConstants | pkg/router/router.go:120-126 | 1.0 and the largest float32 in the model's unit |
| Node.CostOrDefault | pkg/netopus/netopus.go:571-573 | a positive cost is kept, any other becomes 1.0 |
| Node.AcceptKeepsGood | pkg/netopus/netopus.go:856-890 | accepting keeps the router's nodes equal to the known ones and stores the update's connections |
| Node.PruneExactly | pkg/netopus/netopus.go:893-904 | pruning forgets exactly the dead known nodes, here and in the router, schedules a recalculation if there were any, and changes nothing else |
| Node.PruneKeepsGood | pkg/netopus/netopus.go:893-904 | pruning keeps the router's nodes equal to the known ones |
| Flood.SentExactly | pkg/netopus/netopus.go:785-808 | an update goes once to every session when generated, once to every session but the sender's when accepted, and nowhere when refused |
| Flood.SessionsAndRoutes | pkg/netopus/netopus.go:570-600 | which steps change sessions and routes, to what, at which costs |
| Flood.LossAndCopies | pkg/netopus/netopus.go:785-808 | a lost packet is gone once, a duplicated one there once more, and nothing else changes |
| Flood.PrunedIsGone | pkg/netopus/netopus.go:893-904 | after pruning no dead origin is held or in the database, and any of its updates is accepted again |
| Flood.StepKeepsAuthentic | pkg/netopus/netopus.go:240-278 | every step keeps the record of versions and contents authentic |
| Flood.FloodSafety | pkg/netopus/netopus.go:240-278 | in every reachable state a node stores what the origins generated with the stored versions, and its router knows exactly the known nodes and itself |
| Flood.UpdatesArePositive | pkg/netopus/netopus.go:811-852 | every update ever generated has positive costs, whatever routes were added, and CIDR subnets if all routes were such |
| Flood.GeneratedIsUnused | pkg/netopus/netopus.go:845-850 | a generated update is newer than all its origin generated before |
| Flood.StepNeverGoesBack | pkg/netopus/netopus.go:862-880 | a held version never goes back, and rises strictly on each acceptance |
| Flood.HeldNeverGoesBack | pkg/netopus/netopus.go:862-880 | the same over whole runs, between prunings of the entry |
| Flood.RoutersAlwaysSound | pkg/netopus/netopus.go:172-278 | in every state reachable from the start every node's policy, unless a recalculation is due, is right for the database that the flood has brought; lookups are independent of map order if all external routes are CIDR subnets |
| Agreement.StepKeepsCovered | pkg/netopus/netopus.go:785-808 | what a node has learned since sessions stopped changing, its neighbour holds or is about to get, although nothing is sent back to the sender |
| Agreement.AuthenticFlows | pkg/netopus/netopus.go:240-278 | every reachable state, after any restarts and losses, can start such a phase |
| Agreement.QuiescentAgreement | pkg/netopus/netopus.go:172-183 | with nothing on its way to nodes within reach of an origin that has announced itself since, all of them hold its latest version and connections |
| Agreement.IdenticalDatabases | pkg/netopus/netopus.go:240-278 | without restarts connected nodes then hold identical databases |
| Agreement.QuiescentRunRecovers | pkg/netopus/netopus.go:240-278 | over every static lossless run from every reachable state: the latest version and connections of every joined node that has announced itself again |
| Agreement.QuiescentRunAgrees | pkg/netopus/netopus.go:240-278 | over every such run from fresh nodes: identical databases with exactly the announced nodes, each at its latest version |
| FloodTermination.FloodDiesOut | pkg/netopus/netopus.go:260-276 | deliveries are bounded by what is in flight and a weight for each generated or duplicated update |
| FloodTermination.WeightsInTotal | pkg/netopus/netopus.go:785-808 | the weights add up to nodes squared minus one per update and one per duplicate |
| FloodTermination.FreshFloodDiesOut | pkg/netopus/netopus.go:260-276 | from fresh nodes the weights alone bound the deliveries |
| FloodTermination.AcceptedAtMostOnce | pkg/netopus/netopus.go:856-890 | an update once delivered is refused in every later state, so a node forwards it at most once |
| FloodTermination.FloodCanFinish | pkg/netopus/netopus.go:240-278 | from every state, deliveries lead to a state with nothing in flight |
| ConfigCoherence.ConfigsAlwaysDated | pkg/netopus/netopus.go:831-844 | in every state reachable from the start, at every node and in every update with data, the version is the LastUpdated of the data |
| ConfigCoherence.AdoptionExactly | pkg/netopus/netopus.go:881-887 | exactly when an update changes the receiver's configuration, and to what |
| ConfigCoherence.OperatorExactly | pkg/connectopus/connectopus.go:164-177 | an operator's configuration is adopted exactly when it checks and is stored, and no other step but delivery and restart touches a configuration |
| ConfigCoherence.ConfigsAlwaysSigned | pkg/connectopus/connectopus.go:71-87 | in every reachable state a configuration is from some node's files or carries a signature that checks under the node's keys |
| ConfigCoherence.AdoptionIncreases | pkg/netopus/netopus.go:881-887 | a configuration adopted from an update is strictly newer than the one it replaces |
| ConfigCoherence.ForwardRunCoherent | pkg/netopus/netopus.go:1065-1072 | configurations never go back, and no update claims more than its origin has |
| ConfigCoherence.ConvergenceIsReal | pkg/netopus/netopus.go:1074-1101 | in every forward run from the start, after a successful wait every node known then really has at least that version, from then on |
| ConfigCoherence.ConvergenceLastsExactly | pkg/connectopus/connectopus.go:164-177 | a node stays at a version exactly as long as operators give it no older configuration; updates from other nodes never set it back |
| ConfigCoherence.OlderConfigSetsBack | pkg/connectopus/connectopus.go:164-177 | a node with version 2 that adopts version 1 |
| Spreading.ConfigsSpread | pkg/netopus/netopus.go:831-887 | from every reachable symmetric state, over every two rounds of announcements that have come to rest: all within reach that take configurations and accept a newest one's signature have its version, and none has gone back |
| Spreading.HeardIsTrue | pkg/netopus/netopus.go:1074-1085 | what a node has heard of another's version since sessions stopped changing is no more than the truth |
| Spreading.EveryConfigCanSpread | pkg/netopus/netopus.go:831-887 | after any run whatever announcing, delivering and storing lead there |
| Forwarding.SendExactly | pkg/netopus/netopus.go:650-711 | exactly when a packet goes to an external route, when nothing leaves the node, and which error is returned when |
| Forwarding.MulticastIsSubnet | pkg/netopus/netopus.go:655-659 | the dropped addresses are those of ff00::/8 |
| Forwarding.SendBounds | pkg/netopus/netopus.go:623-711 | every call ends with at most one packet out and two nested errors; exactly when there are none and when there are two |
| Forwarding.ErrorGoesBack | pkg/netopus/netopus.go:623-647 | the error about a packet goes to the packet's source with hop limit 30 and the fitting kind |
| Forwarding.DeliveredExactly | pkg/netopus/netopus.go:623-664 | the own stack gets a packet as itself exactly when it is for the node, at any hop limit, and otherwise only errors from the node itself |
| Forwarding.HopExactly | pkg/netopus/netopus.go:666-710 | exactly when a packet crosses a link, to which neighbour, and that it has then lost one of its limit |
| Forwarding.HopLimitBounds | pkg/netopus/netopus.go:666-673 | a packet with limit L crosses at most L - 1 links under arbitrary changing policies |
| Forwarding.HopLimitIsUsedUp | pkg/netopus/netopus.go:666-673 | the bound is sharp |
| Forwarding.OobExactly | pkg/netopus/netopus.go:714-758 | exactly when a message is handed to a port, refused, expired or stuck, and where it is forwarded |
| Forwarding.OobBounds | pkg/netopus/netopus.go:714-731 | links an out-of-band message can cross, for every counter value |
| Forwarding.OobBudgetIsUsedUp | pkg/netopus/netopus.go:728-731 | that bound is sharp, the wrap at 255 included |
| Forwarding.OobCounterCounts | pkg/netopus/oob_conn.go:133-150 | a message written by a node counts its links, at most 29, and never wraps |
| EndToEnd.GraphIsSessions | pkg/router/router.go:91-101 | if no known node is captured, each router's graph within reach is the session graph up to loops, and nodes out of reach have no edge leading to them |
| EndToEnd.TravelsExactly | pkg/netopus/netopus.go:661-710 | along forwarding nodes a packet arrives exactly if its hop limit exceeds the links, by one more to leave through an external route |
| EndToEnd.TravelsOneWay | pkg/netopus/netopus.go:650-711 | a packet's way and exit are unique |
| EndToEnd.SettledDelivers | pkg/netopus/netopus.go:650-711 | in a settled network, if nothing is in the way, every pair in reach is served over a cheapest chain of sessions that visits no node twice |
| EndToEnd.OobTravelsExactly | pkg/netopus/netopus.go:714-758 | along forwarding nodes a message gets to its port exactly if the port is open and the links are within what its counter leaves |
| EndToEnd.OobOneWay | pkg/netopus/netopus.go:714-758 | a message's way is unique |
| EndToEnd.QuiescentNetworkReachesPorts | pkg/netopus/oob_conn.go:133-150 | over every static run from every reachable symmetric state, once ready and unhindered: a new message reaches an open port exactly over at most 29 links |
| EndToEnd.CapturedNeverArrives | pkg/netopus/netopus.go:675-687 | from a node with an external route over another node's address no packet ever arrives there |
| EndToEnd.DeliveryExactly | pkg/netopus/netopus.go:650-711 | in every settled network, recovered ones included, all pairs within reach are served however the routers recalculate, if and only if no route captures one of the nodes and every first hop that a database allows is one over sessions |
| EndToEnd.DeliveryAmongKnown | pkg/netopus/netopus.go:650-711 | among nodes that know only each other all pairs are served if and only if no route captures one of the nodes |
| EndToEnd.SettledLeaves | pkg/netopus/netopus.go:675-687 | packets for an address leave the overlay at an advertiser of its longest subnet that is nearest over sessions, if all nodes steer and no other node captures the address |
| EndToEnd.CaptorKeeps | pkg/netopus/netopus.go:675-687 | a node with any external route for an address keeps its own packets for it |
| EndToEnd.LeavingExactly | pkg/netopus/netopus.go:675-687 | where all nodes steer, packets from everywhere leave at nearest advertisers if and only if no other node on the way to one captures the address |
| EndToEnd.LeavingAtSoleExactly | pkg/netopus/netopus.go:675-687 | the same without a condition on the graph for a sole advertiser |
| EndToEnd.QuiescentNetworkDelivers | pkg/netopus/netopus.go:172-183 | over every static run from every reachable symmetric state, once the nodes within reach are ready and nothing is in the way: delivery exactly for the hop limits above the links of a cheapest chain |
| EndToEnd.QuiescentNetworkDeliversExactly | pkg/netopus/netopus.go:172-278 | the exact condition over the same runs |
| EndToEnd.QuiescentNetworkLeaves | pkg/connectopus/connectopus.go:549-549 | the same for an address whose longest subnet one node advertises, up to its external route |
| EndToEnd.FreshNetworkDeliversExactly | pkg/netopus/netopus.go:972-982 | over every such run from fresh nodes: all served if and only if no route captures a node within reach |
| PolicyExistence.CorrectPolicyExists | pkg/router/router.go:88-167 | every valid database has a correct policy for every node |
| PolicyExistence.PolicyWithEntry | pkg/router/router.go:141-167 | any first hops towards the advertisers, with any nearest of them as the subnet's entry, belong to some correct policy |
| Settling.EveryNetworkCanSettle | pkg/netopus/netopus.go:172-183 | from every reachable state announcing, delivering and recalculating lead to a quiet state with current announcements |
| Settling.EveryNetworkCanDeliver | pkg/netopus/netopus.go:172-183 | every such state with symmetric sessions whose routes avoid node addresses can get to one that serves every pair within reach |
| Settling.EveryRunCanRecover | pkg/netopus/netopus.go:172-278 | so can it after any run whatever of the full system from the start |
| Netopus.ParseAndCheckConfig | pkg/connectopus/connectopus.go:71-87 | accepts exactly parsable configurations signed by an authorized key, or by one of its own when none are given |
| Netopus.Netopus.CollectConnections | pkg/netopus/netopus.go:812-824 | announces every session and external route, routes over sessions |
| Netopus.Netopus.CheckConfigsConverged | pkg/netopus/netopus.go:1074-1085 | true exactly when no known node is behind |
| Netopus.Netopus.GenerateRoutingUpdate | pkg/netopus/netopus.go:811-852 | the next number, the announced connections, and the configuration exactly when a known node is behind, stated over the fields |
| Netopus.Netopus.FloodRoutingUpdate | pkg/netopus/netopus.go:785-808 | one packet for each session but the excepted one |
| Netopus.Netopus.SendUpdate | pkg/netopus/netopus.go:172-182 | does the originating step of the flood model |
| Netopus.Netopus.HandleRoutingUpdate | pkg/netopus/netopus.go:856-890 | accepts exactly newer updates of others, records them and offers their configuration, if there is a function for that |
| Netopus.Netopus.ReadUpdate | pkg/netopus/netopus.go:257-276 | does the delivery step of the flood model for every update with an origin, and keeps the node valid for good ones |
| Netopus.Netopus.RemoveDeadNodes | pkg/netopus/netopus.go:893-904 | forgets exactly the stale nodes, here and in the router, and schedules a recalculation if there were any, stated over the fields |
| Netopus.Netopus.NewConfig | pkg/connectopus/connectopus.go:164-177 | adopts checked and stored configurations with their own LastUpdated as version |
| Netopus.Netopus.UpdateConfig | pkg/netopus/netopus.go:1065-1072 | sets the configuration and nothing else |
| Netopus.Netopus.OpenSession | pkg/netopus/netopus.go:570-585 | any peer; a positive cost is stored as given, any other as 1.0 |
| Netopus.Netopus.AddExternalRoute | pkg/netopus/netopus.go:972-982 | any destination; a positive cost is stored as given, any other as 1.0 |
| Netopus.Netopus.HandlePacket | pkg/netopus/netopus.go:481-486 | a valid node does with packets from its stack and its sessions what the forwarding model says |
| Netopus.Netopus.HandleOOB | pkg/netopus/netopus.go:494-500 | the same for out-of-band messages |
| Netopus.Netopus.SendPacket | pkg/netopus/netopus.go:650-711 | does what the forwarding model says, including the hop limit left in the caller's buffer; ends although it and the next call each other |
| Netopus.Netopus.SendICMPv6Error | pkg/netopus/netopus.go:623-647 | sends one error of hop limit 30 back to the source |
| Netopus.Netopus.SendOOB | pkg/netopus/netopus.go:714-758 | does what the out-of-band model says, with the counter changed in place |
| Address.ComputeMaskPrefix | pkg/proto/tcpip.go:176-182 | the prefix of a CIDR mask is its number of ones |
| Address.NewSubnet | pkg/proto/tcpip.go:186-195 | a CIDR mask gives a CIDR subnet of that prefix, or the empty subnet for unequal lengths |
| Address.OwnSubnetContains | pkg/proto/tcpip.go:256-258 | an address is in its own subnet unless it is IPv4-mapped and the mask is shorter than 96 |
| Address.MappedOutsideOwnSubnet | pkg/proto/tcpip.go:186-195 | such an address: 0.0.0.0 in IPv4-mapped form and a /64 |
| Address.SamePrefixSameSubnet | pkg/proto/tcpip.go:256-265 | two CIDR subnets of equal prefix that contain one address are equal, IPv4 and IPv6 mixed |
| Address.HostOnlyIsExact | pkg/proto/tcpip.go:198-200 | a host-only subnet has the longest prefix and contains its own address only |
| RandomSubnets.DisjointAdd | pkg/proto/tcpip.go:75-75 | numbers without a common bit add without overflow |
| RandomSubnets.MaskingChangesNothing | pkg/proto/tcpip.go:82-82 | the final masking changes nothing when keep is at most the prefix |
| RandomSubnets.RandomSubnet | pkg/proto/tcpip.go:60-83 | no overflow; kept bits, random bits, then zeros, for all arguments |
| Framing.FrameBytes | pkg/backends/backend_tcp/backend_tcp.go:30-40 | which messages are framed, and the bytes of a frame, length with the high byte first |
| Framing.StreamRoundTrip | pkg/backends/backend_tcp/backend_tcp.go:30-64 | reading what was written gives the messages back, without empty and oversized ones |
| Framing.CutStreamGivesPrefix | pkg/backends/backend_tcp/backend_tcp.go:51-64 | a cut stream gives exactly the messages whose frames survived whole |
| Framing.TcpBackend.WriteMessage | pkg/backends/backend_tcp/backend_tcp.go:30-49 | appends a frame, nothing for an empty message, an error above the MTU, and a cut frame with an error when the connection breaks |
| Framing.TcpBackend.ReadMessage | pkg/backends/backend_tcp/backend_tcp.go:51-64 | a whole message or an error |
| Framing.TcpBackend.ReadMessages | pkg/netopus/netopus.go:221-238 | reads messages until the first error |
| Framing.Transfer | pkg/backends/backends.go:11-14 | over a connection that breaks anywhere the far end gets exactly the messages whose frames went through, and all of them exactly if the whole stream did |
| Wire.MarshalOOB | pkg/proto/proto.go:161-171 | the buffer holds the header fields at their places and the data |
| Wire.MarshalRouteOOB | pkg/proto/proto.go:198-205 | the same with the other type byte |
| Wire.EncodingLayout | pkg/proto/proto.go:161-171 | the header layout by byte number, ports with the high byte first |
| Wire.DecodeEncoding | pkg/proto/proto.go:161-189 | decoding gives the message back exactly when both addresses have sixteen bytes |
| Wire.EncodeDecoded | pkg/proto/proto.go:174-223 | encoding a decoded message gives the input back exactly when its pad byte is zero |
| Wire.DispatchRoundTrip | pkg/proto/proto.go:75-114 | each encoding comes back through its own decoder |
| Wire.PacketsAreNotConfused | pkg/proto/proto.go:75-114 | by first byte, which messages count as packets, as out-of-band messages of either kind and as JSON, and that no out-of-band message counts as a packet |

## Left out

- Session handshake, keepalives, reconnects and cancellation: the set of connected sessions is given.
- Interleavings inside one reader iteration, between acceptance and the router's update.
- Rounding of float32 sums, and costs that are not numbers.
- Sequence numbers beyond 64 bits.
- Updates whose connections are missing altogether; no node of the model sends them.
- Netopus.Netopus.GenerateRoutingUpdate: the node name and the external names that updates carry; nothing in routing reads them.
- Netopus.Netopus.SendPacket: external routes without an outgoing function, which the source passes over; all callers give one.
- Router.Router.Recalculate: databases with costs that are not positive, on which the search need not end, or with node addresses of other lengths than sixteen bytes.
- EndToEnd.DeliveryExactly: chains of sessions as dear as the largest float32 are excluded, which the search treats as unreachable.
- EndToEnd.LeavingExactly: asks that no node within reach captures a node that is known, and that the condition for nearest advertisers holds; arrival under the weaker condition of `Anycast.ArrivalExactly` is proved for one database only.
- Node addresses that are IPv4-mapped, which JSON shortens to four bytes, or multicast.
- JSON and YAML, address parsing and printing, SSH signatures, TLS, DTLS.
- The byte layout of IPv6 and ICMPv6 headers; packets have the header fields that forwarding uses.
- A network-wide bound on ICMPv6 errors: errors about errors are not suppressed, so only the nesting within one node is bounded.
- Out-of-band ports, KCP streams, the network stacks, tun devices, namespaces, DNS, services, the reconciler, the command line, GraphQL and the web interface.
- Partially written configuration files.
