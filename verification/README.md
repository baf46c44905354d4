# UAV network simulator core in Dafny

This project models the resource-accounting and topology engine of the UAV mobility
simulator (`uav-mobility-app`). The network is a directed graph. Its infrastructure nodes
are gateways, switches and access points, and its end devices are UAVs and cameras. Every
directed edge carries a link object. A link has a throughput ceiling, an available
throughput, and the set of device flows routed through it.

The engine does four things:
- it admits and releases device flows on links;
- it assigns a path to a device all-or-nothing, finds a device's path, and frees a path;
- it computes a capacity-aware path to a gateway, and enumerates next hops by hop distance;
- it generates the two discrete events: a UAV moving to another access point, and an
  inactive camera starting to stream.

The model is functional. A `Topology.Network` value holds the following:
- the node list and its gateway, switch and access-point sub-lists;
- the device table, keyed by id, with the device order and the UAV and camera id lists;
- the link arena, keyed by id, with the link order;
- the edge map from `(source, destination)` to a link id.

Vertices are tagged `NodeVertex(id)` or `DeviceVertex(id)`. The tag plays the part of
`isinstance(u, NetworkDevice)`. Python compares devices in flow sets by object identity;
the model uses device ids and assumes ids are unique. Every Python method that mutates
the graph or a link becomes a function that returns the new `Network` (or `Link`) together
with the Python return value.

The modules follow the source files:
- `NetworkNode`, `NetworkDevice` and `NetworkLink` model the three entity classes.
- `Topology` covers the network record, its validity invariant and construction.
- `Allocation` covers `assign_path_to_device`, `get_path_device` and `free_path_device`.
- `PathComputation` covers `shortest_path_to_gw`.
- `HopEnumerator` covers `get_next_link`.
- `Events` covers `generate_uav_event` and `generate_cam_event`.
- `Graph`, `Seqs`, `Decimal` and `Wrappers` are support modules.

Behaviour of the code that the model keeps, including its rough edges:
- `shortest_path_to_gw` re-adds the pruned edges only after the search succeeds. When the
  search raises, or weighting an edge raises because its link has a zero ceiling, the
  pruned edges stay removed (`PathComputation.ShortestPathToGw`).
- The reverse link of each hop is appended without any capacity check
  (`PathComputation.ForwardLinksHaveCapacity` covers only forward links).
- A path that lists a link twice passes phase 1 twice. The second `route_new_flow` fails
  silently, and the assignment still succeeds (`Allocation.DuplicateLinkAcceptedOnce`).
- `generate_uav_event` marks the UAV active and removes its two edges before it draws an
  access point. With fewer than two access points, it fails in that partial state
  (`Events.UavEventTooFewAccessPoints`).
- A UAV whose only edge is a self-loop makes `generate_uav_event` remove that edge twice,
  which raises; the UAV stays active and the loop is gone (`Events.UavEventSelfLoopFails`).
- The link object that sat on AP -> UAV ends up on UAV -> new AP, and the other way round.
- `generate_cam_event` ignores its `seed` argument.
- Flows handed to the link constructor are not debited. Releasing such a flow lifts the
  available throughput above the ceiling (`NetworkLink.ReleasingSeededFlowExceedsCeiling`).

## Model

| member | source | states |
|---|---|---|
| NetworkNode.NewNode | uav_mobility_app/gym_envs/entities/NetworkNode.py:22-26 | the node keeps the given id, type and position; an empty name becomes the decimal text of the id, so a node name is never empty |
| NetworkNode.NewNodeStable | uav_mobility_app/gym_envs/entities/NetworkNode.py:22-26 | rebuilding a node from its own fields gives the same node, and a defaulted name parses back to the id |
| Decimal.IntRoundTrip | uav_mobility_app/gym_envs/entities/NetworkNode.py:24 | the decimal text used for default names parses back to the id it was made from |
| NetworkDevice.NewDevice | uav_mobility_app/network_envs/entities/NetworkDevice.py:31-38 | a new device is inactive and keeps the given id, type, requirements and position; an empty name becomes the decimal text of the id |
| NetworkDevice.SetPosition | uav_mobility_app/network_envs/entities/NetworkDevice.py:111-114 | the write succeeds exactly for a UAV and then stores the position; for a camera it returns false and the device is unchanged; no other field changes |
| NetworkDevice.SetActive | uav_mobility_app/network_envs/entities/NetworkDevice.py:127-133 | stores any flag and leaves identity fields and position alone |
| NetworkDevice.SettersKeepIdentity | uav_mobility_app/network_envs/entities/NetworkDevice.py:99-133 | any sequence of position and active-flag setter calls, in any interleaving, leaves id, name, type, delay and throughput requirements as constructed |
| NetworkDevice.CameraNeverMoves | uav_mobility_app/network_envs/entities/NetworkDevice.py:111-112 | whatever setter calls a camera receives, in any interleaving, its position never changes |
| NetworkLink.NewLink | uav_mobility_app/gym_envs/entities/NetworkLink.py:30-37 | available throughput is the given value lowered to the ceiling if above it; the flow set holds exactly the seeded devices; an empty name becomes the decimal text of the id |
| NetworkLink.SetName | uav_mobility_app/gym_envs/entities/NetworkLink.py:58-66 | the name is replaced and nothing else changes |
| NetworkLink.SetAvailable | uav_mobility_app/gym_envs/entities/NetworkLink.py:101-106 | a value is stored, with true returned, iff it lies in [0, max]; otherwise false and the link is unchanged; only the available throughput can change |
| NetworkLink.CanRouteFlow | uav_mobility_app/gym_envs/entities/NetworkLink.py:147-151 | true iff the requirement fits in the available throughput and the device is not already routed |
| NetworkLink.RouteNewFlow | uav_mobility_app/gym_envs/entities/NetworkLink.py:164-170 | succeeds exactly when `CanRouteFlow` held; on success the device joins the flows, its requirement is debited and available stays non-negative; on failure the link is unchanged |
| NetworkLink.RemoveFlow | uav_mobility_app/gym_envs/entities/NetworkLink.py:184-189 | succeeds iff the device is routed, then removes it and credits its requirement; otherwise the link is unchanged |
| NetworkLink.RouteThenRemove | uav_mobility_app/gym_envs/entities/NetworkLink.py:164-189 | admitting a flow and then removing it restores the link exactly |
| NetworkLink.RemoveThenRoute | uav_mobility_app/gym_envs/entities/NetworkLink.py:164-189 | removing a routed flow and admitting it again restores a link whose available throughput is non-negative |
| NetworkLink.RouteNewFlowIdempotent | uav_mobility_app/gym_envs/entities/NetworkLink.py:164-170 | a second admission of the same device is refused and changes nothing |
| NetworkLink.RemoveFlowIdempotent | uav_mobility_app/gym_envs/entities/NetworkLink.py:184-189 | a second removal of the same device is refused and changes nothing |
| NetworkLink.RouteNewFlowKeepsBounds | uav_mobility_app/gym_envs/entities/NetworkLink.py:164-170 | with a non-negative requirement, admission keeps available throughput within [0, max] |
| NetworkLink.ReleasingSeededFlowExceedsCeiling | uav_mobility_app/gym_envs/entities/NetworkLink.py:35-37 | every link built at its ceiling with a seeded flow of positive requirement ends at ceiling plus that requirement, outside its bounds, once the flow is removed |
| Topology.BuildIsValid | uav_mobility_app/gym_envs/entities/Network.py:25-54 | construction from parsed input with unique ids gives a valid network: node classes are the input filtered by type, devices and links are stored under their ids, and each edge carries the last link given for its endpoints |
| Topology.NodeClassesPartition | uav_mobility_app/gym_envs/entities/Network.py:31-37 | gateways, switches and access points together are a permutation of the node list |
| Topology.DeviceClassesPartition | uav_mobility_app/gym_envs/entities/Network.py:42-46 | UAVs and cameras together are a permutation of the device list |
| Graph.HopDistance | uav_mobility_app/gym_envs/entities/Network.py:283-285 | the result is the least hop count within which the target is reachable, or None when no bound the search covers reaches it |
| Graph.WalkBoundsDistance | uav_mobility_app/gym_envs/entities/Network.py:173-177 | any walk with no more hops than there are edges, such as the route a shortest-path search returns, makes the hop distance between its ends defined and no larger than its hop count |
| Allocation.RouteAll | uav_mobility_app/gym_envs/entities/Network.py:214-215 | after routing along a path, each link of the path is as one `route_new_flow` left it, even when listed twice, and every other link is unchanged |
| Allocation.ReleaseAll | uav_mobility_app/gym_envs/entities/Network.py:254-255 | after releasing along a path, each link of the path is as one `remove_flow` left it and every other link is unchanged |
| Allocation.AssignPath | uav_mobility_app/gym_envs/entities/Network.py:211-216 | succeeds iff every link of the path can take the flow; on failure the network is unchanged; on success each path link is admitted once and nothing else changes |
| Allocation.FreePath | uav_mobility_app/gym_envs/entities/Network.py:254-255 | each link of the path that carries the device releases it; links of the path without the device and links outside the path are unchanged |
| Allocation.GetPathDevice | uav_mobility_app/gym_envs/entities/Network.py:230-234 | returns exactly the links of the link order whose flows contain the device, in that order |
| Allocation.AssignThenFree | uav_mobility_app/gym_envs/entities/Network.py:211-255 | a successful assignment followed by freeing the same path gives back the original network |
| Allocation.DuplicateLinkAcceptedOnce | uav_mobility_app/gym_envs/entities/Network.py:211-216 | a path listing an admissible link twice is accepted, the second admission fails, and the link is debited once |
| Allocation.AssignedPathIsFound | uav_mobility_app/gym_envs/entities/Network.py:211-234 | for a device routed nowhere, after a successful assignment the links found to carry it are exactly the links of the path |
| Allocation.AllocationKeepsValid | uav_mobility_app/gym_envs/entities/Network.py:211-255 | assignment and release keep the network invariant |
| PathComputation.Removed | uav_mobility_app/gym_envs/entities/Network.py:158-166 | the edges to remove are exactly the network edges, with their links, whose link lacks the required throughput and that join no device |
| PathComputation.Prune | uav_mobility_app/gym_envs/entities/Network.py:158-167 | an edge survives pruning iff it is not starved, and keeps its link |
| PathComputation.PairLinks | uav_mobility_app/gym_envs/entities/Network.py:179-184 | for a node path of k hops, gives 2k links, the forward link of hop i at 2i and its reverse at 2i+1; None iff some edge in either direction is missing |
| PathComputation.RestoreIsIdentity | uav_mobility_app/gym_envs/entities/Network.py:167-178 | re-adding the removed edges gives back the original edge map, endpoints and links |
| PathComputation.ShortestPathToGw | uav_mobility_app/gym_envs/entities/Network.py:142-186 | a zero-ceiling link left after pruning (its delay divides by zero) or a failed search leaves the pruned edges removed; a successful search leaves the network as it was and returns the forward/reverse link list of the route, or fails only when a reverse edge is missing |
| PathComputation.ForwardLinksHaveCapacity | uav_mobility_app/gym_envs/entities/Network.py:158-184 | every forward link of a returned path either joins a device or has the required throughput available |
| PathComputation.MissingEdgeIsReverse | uav_mobility_app/gym_envs/entities/Network.py:182-184 | a returned route fails only for want of an edge back along one of its hops |
| PathComputation.FailedSearchKeepsValid | uav_mobility_app/gym_envs/entities/Network.py:167-177 | the network left with pruned edges after a failed search still satisfies the invariant |
| HopEnumerator.NextLinks | uav_mobility_app/gym_envs/entities/Network.py:276-288 | fails iff there is no gateway or the destination or one of its out-neighbours cannot reach the first gateway; otherwise returns exactly the out-edges of the destination whose end is no farther from the gateway |
| HopEnumerator.GatewayOnlyLoops | uav_mobility_app/gym_envs/entities/Network.py:283-288 | at the gateway, the only candidate hop is a self-loop on the gateway |
| HopEnumerator.GatewayIsTerminal | uav_mobility_app/gym_envs/entities/Network.py:283-288 | without a self-loop on the gateway, the gateway has no next hop |
| HopEnumerator.SomeHopMakesProgress | uav_mobility_app/gym_envs/entities/Network.py:283-288 | away from the gateway, some candidate hop is exactly one hop closer to it |
| Events.FirstPredecessor | uav_mobility_app/gym_envs/entities/Network.py:311-312 | returns a listed vertex with an edge into the UAV, or None when no listed vertex has one |
| Events.FirstSuccessor | uav_mobility_app/gym_envs/entities/Network.py:313 | returns a listed vertex with an edge from the UAV, or None when no listed vertex has one |
| Events.OtherAccessPointsLength | uav_mobility_app/gym_envs/entities/Network.py:317-318 | removing the current attachment point from the access points drops at most one, so the drawn index is in range |
| Events.RenamedLinks | uav_mobility_app/gym_envs/entities/Network.py:321-326 | the two moved links get the AP/UAV names, no other link changes, and the moved links change nothing but their names |
| Events.Reattached | uav_mobility_app/gym_envs/entities/Network.py:314-332 | the old in-edge and out-edge are gone unless re-added, the in-edge's link lands on UAV -> AP and the out-edge's link on AP -> UAV, every other edge in the result is an old edge with its old link, and every edge away from the UAV is kept with its link |
| Events.MoveUav | uav_mobility_app/gym_envs/entities/Network.py:321-332 | the success step changes only links and edges: edges become the re-attachment, link ids and everything but names stay, and only the two moved links can change |
| Events.GenerateUavEvent | uav_mobility_app/gym_envs/entities/Network.py:304-333 | fails with no UAVs and changes nothing; otherwise the chosen UAV is active whatever happens next; it fails with fewer than two access points; a UAV without an in-edge or without an out-edge fails with `NoAttachment` and every edge kept; link capacities and flows never change, a failure changes no link, and only links on edges at the UAV can be renamed |
| Events.UavEventOutcome | uav_mobility_app/gym_envs/entities/Network.py:311-332 | for a UAV attached to one point other than itself, with at least two access points, the event succeeds and its edges are the re-attachment to the drawn access point |
| Events.UavEventReattaches | uav_mobility_app/gym_envs/entities/Network.py:304-333 | a UAV attached to one point other than itself ends attached to exactly one other access point, with the in-link now on UAV -> AP and the out-link on AP -> UAV, and all edges away from the UAV unchanged |
| Events.UavEventTooFewAccessPoints | uav_mobility_app/gym_envs/entities/Network.py:309-317 | with fewer than two access points the event fails with the UAV active and both of its edges removed, every other edge unchanged |
| Events.UavEventSelfLoopFails | uav_mobility_app/gym_envs/entities/Network.py:309-315 | when the UAV's only edge is a self-loop, the second removal fails, leaving the UAV active and the loop removed |
| Events.EveryOtherAccessPointReachable | uav_mobility_app/gym_envs/entities/Network.py:317-319 | every access point other than the current one is reached by some index in the drawn range |
| Events.UavEventEdges | uav_mobility_app/gym_envs/entities/Network.py:314-332 | every edge after the event is an old edge with its old link or joins the UAV and an access point |
| Events.UavEventKeepsOtherEdges | uav_mobility_app/gym_envs/entities/Network.py:304-333 | on every path, success or failure, each edge that does not touch the UAV is present afterwards exactly when it was before, with the same link |
| Events.UavEventNoAttachment | uav_mobility_app/gym_envs/entities/Network.py:311-313 | the event fails for want of an attachment exactly when the chosen UAV has no in-edge or no out-edge |
| Events.UavEventKeepsValid | uav_mobility_app/gym_envs/entities/Network.py:304-333 | the UAV event keeps the network invariant, including on its failure paths |
| Events.GenerateCamEvent | uav_mobility_app/gym_envs/entities/Network.py:335-353 | fails iff no camera is inactive, changing nothing; otherwise activates one inactive camera and changes nothing else |
| Events.CamEventActivatesOne | uav_mobility_app/gym_envs/entities/Network.py:347-352 | each successful camera event lowers the number of inactive cameras by exactly one |
| Events.CamEventKeepsValid | uav_mobility_app/gym_envs/entities/Network.py:347-353 | the camera event keeps the network invariant |

`Topology.Build` and `Events.InactiveCams` are helpers without contracts of their own: `Topology.BuildIsValid` and `Events.GenerateCamEvent` state what they compute.

## Left out

- Dijkstra (`networkx.shortest_path` weighted by link delay) is not modelled. The node path it returns is a parameter of `PathComputation.ShortestPathToGw`. The parameter must be a walk over the pruned edges, or None only when the gateway is unreachable over them. Nothing states that the walk is shortest by delay.
- The link `delay` property is not modelled, because it is a floating-point exponential. So is the edge weight that `shortest_path_to_gw` writes onto every edge; only the search reads it.
- PathComputation.ShortestPathToGw: models the division by a zero ceiling in `delay`, but not an `OverflowError` from `math.exp` when a link's load rate is extreme (available throughput hundreds of times the ceiling below zero, or a negative ceiling), because that depends on floating-point range.
- Throughput is a Dafny `real`, not an IEEE double. Round trips such as `NetworkLink.RouteThenRemove` are exact in the model, while Python floats agree only approximately.
- `random.seed` and `random.randint` are index parameters bounded by the range `randint` would draw from. A draw from an empty range is the failure result.
- Graph.HopDistance: searches at most as many hops as there are edges and does not prove that this bound is complete. A shortest walk never repeats an edge, so the bound suffices, but that argument is not mechanised.
- Events.GenerateUavEvent: takes the UAV's first in-edge and first out-edge in vertex-list order, while networkx uses edge insertion order. The two agree whenever the UAV has one in-edge and one out-edge, which is the case `Events.UavEventReattaches` covers.
- Events.GenerateUavEvent: draws from the other access points in list order. Python indexes a list built from a set, whose order is unspecified. `Events.EveryOtherAccessPointReachable` states the order-free fact: every other access point can be drawn.
- HopEnumerator.NextLinks: returns a set, not a list in networkx's out-edge order.
- Re-adding edges after pruning changes networkx's edge iteration order, which the model does not track. Edge maps are unordered.
- Parsing JSON input (`NetworkJSONParser.py`) is not modelled. Construction starts from already-parsed node, device and link sequences.
- The gym environments, observation wrappers and package registration are not modelled. They are a shell around the engine.
- Visualisation (`show_shortest_path_to_gw`, `show_network_info`), the `__main__` demo block and every `__str__` method are not modelled, because they produce plots or text only.
- The `NetworkNodeType` and `NetworkDeviceType` enums and the `ExtendedNetworkLink` alias are transcribed as datatypes and a tuple type. They contain no behaviour.
- Python's object identity is not modelled. Nodes, devices and links are told apart by id, and ids are assumed unique, as the construction lemma requires.
