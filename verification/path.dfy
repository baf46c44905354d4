/** Capacity-aware path computation from a device to a gateway (`shortest_path_to_gw`).
    The weighted search itself (`networkx.shortest_path` with Dijkstra over link delays)
    is a parameter: the node path it returned, or None when it raised. */
module PathComputation {
  import opened Wrappers
  import opened Graph
  import opened NetworkNode
  import opened NetworkDevice
  import opened NetworkLink
  import opened Topology

  datatype PathError =
    | NoPathFound   // the search found no route in the pruned graph
    | MissingEdge   // a hop of the route has no edge back (`get_edge_data` gave None)
    | ZeroCeiling   // a link left after pruning has a zero ceiling, so its delay divides by zero

  /** The edge `e` cannot carry the device's flow and is not an access link: the pruning
      test of `shortest_path_to_gw`. */
  predicate Starved(net: Network, e: Edge, d: Device)
    requires e in net.edges && net.edges[e] in net.links
  {
    net.links[net.edges[e]].available < d.throughputReq && !TouchesDevice(e)
  }

  /** `edges_to_remove`: the starved edges, with the links they carry. */
  function Removed(net: Network, d: Device): (r: map<Edge, int>)
    requires EdgesValid(net)
    ensures r.Keys <= net.edges.Keys
    ensures forall e :: e in r ==> r[e] == net.edges[e] && Starved(net, e, d)
    ensures forall e :: e in net.edges && Starved(net, e, d) ==> e in r
  {
    map e | e in net.edges && Starved(net, e, d) :: net.edges[e]
  }

  /** The edges left for the search: exactly the edges that are not starved. Access links
      are kept whatever their capacity; their legality is left to admission. */
  function Prune(net: Network, d: Device): (pruned: map<Edge, int>)
    requires EdgesValid(net)
    ensures pruned.Keys <= net.edges.Keys
    ensures forall e :: e in pruned ==> pruned[e] == net.edges[e]
    ensures forall e :: e in net.edges ==> (e in pruned <==> !Starved(net, e, d))
  {
    net.edges - Removed(net, d).Keys
  }

  /** Some edge left after pruning carries a link with a zero ceiling. Weighting that edge
      reads the link's delay, whose load rate divides by the ceiling and raises. */
  predicate ZeroCeilingSurvives(net: Network, d: Device)
    requires EdgesValid(net)
  {
    exists e :: e in Prune(net, d) && net.links[net.edges[e]].maxThroughput == 0.0
  }

  /** The link list of a node path: for each hop u -> v, the link on u -> v and then the link
      on v -> u. None when an edge is missing. */
  function PairLinks(es: map<Edge, int>, p: seq<Vertex>): (r: Option<seq<int>>)
    requires |p| >= 1
    ensures r.Some? <==> forall i :: 0 <= i < |p| - 1 ==> (p[i], p[i + 1]) in es && (p[i + 1], p[i]) in es
    ensures r.Some? ==> |r.value| == 2 * (|p| - 1)
    ensures r.Some? ==> forall i :: 0 <= i < |p| - 1 ==>
      r.value[2 * i] == es[(p[i], p[i + 1])] && r.value[2 * i + 1] == es[(p[i + 1], p[i])]
    decreases |p|
  {
    if |p| == 1 then Some([])
    else if (p[0], p[1]) !in es || (p[1], p[0]) !in es then None
    else
      match PairLinks(es, p[1..])
      case None => None
      case Some(rest) => Some([es[(p[0], p[1])], es[(p[1], p[0])]] + rest)
  }

  /** What the weighted search may return: a walk from the device to the gateway over the
      pruned edges, or None only when the gateway cannot be reached over them. */
  ghost predicate SearchOutcome(net: Network, d: Device, gw: Node, route: Option<seq<Vertex>>)
    requires EdgesValid(net)
  {
    var es := Prune(net, d).Keys;
    match route
    case Some(p) => IsWalk(es, p) && p[0] == DeviceVertex(d.id) && p[|p| - 1] == NodeVertex(gw.id)
    case None => HopDistance(es, DeviceVertex(d.id), NodeVertex(gw.id)).None?
  }

  /** Re-adding the pruned edges gives back the original edge map, endpoints and links. */
  lemma RestoreIsIdentity(net: Network, d: Device)
    requires EdgesValid(net)
    ensures Prune(net, d) + Removed(net, d) == net.edges
  {
    var restored := Prune(net, d) + Removed(net, d);
    assert restored.Keys == net.edges.Keys;
    assert forall e :: e in restored ==> restored[e] == net.edges[e];
  }

  /** `shortest_path_to_gw`. Prunes the starved edges, weights the remaining edges by link
      delay, runs the search, and only when the search succeeds re-adds the pruned edges:
      a zero-ceiling link among the remaining edges, or a failed search, leaves them removed.
      A successful search returns, for a node path n0..nk, the 2k links
      n0->n1, n1->n0, n1->n2, n2->n1, ..., the network left exactly as it was. */
  function ShortestPathToGw(net: Network, d: Device, gw: Node, route: Option<seq<Vertex>>)
    : (r: (Network, Result<seq<int>, PathError>))
    requires Valid(net)
    requires SearchOutcome(net, d, gw, route)
    ensures ZeroCeilingSurvives(net, d) ==> r == (net.(edges := Prune(net, d)), Failure(ZeroCeiling))
    ensures !ZeroCeilingSurvives(net, d) && route.None? ==>
      r.1 == Failure(NoPathFound) && r.0 == net.(edges := Prune(net, d))
    ensures !ZeroCeilingSurvives(net, d) && route.Some? ==>
      r.0 == net && r.1 != Failure(NoPathFound) && r.1 != Failure(ZeroCeiling)
    ensures !ZeroCeilingSurvives(net, d) && route.Some? ==>
      (r.1.Success? <==> PairLinks(net.edges, route.value).Some?)
    ensures r.1.Success? ==> route.Some? && |r.1.value| == 2 * (|route.value| - 1)
    ensures r.1.Success? ==> forall i :: 0 <= i < |route.value| - 1 ==>
      && r.1.value[2 * i] == net.edges[(route.value[i], route.value[i + 1])]
      && r.1.value[2 * i + 1] == net.edges[(route.value[i + 1], route.value[i])]
  {
    var removed := Removed(net, d);
    var pruned := net.edges - removed.Keys;
    if exists e :: e in pruned && net.links[net.edges[e]].maxThroughput == 0.0 then
      (net.(edges := pruned), Failure(ZeroCeiling))
    else
    match route
    case None => (net.(edges := pruned), Failure(NoPathFound))
    case Some(p) =>
      var restored := pruned + removed;
      RestoreIsIdentity(net, d);
      match PairLinks(restored, p)
      case None => (net.(edges := restored), Failure(MissingEdge))
      case Some(ls) => (net.(edges := restored), Success(ls))
  }

  /** Every forward link of a returned path can carry the device's flow unless it is an
      access link; the reverse links are never checked. */
  lemma ForwardLinksHaveCapacity(net: Network, d: Device, gw: Node, route: Option<seq<Vertex>>)
    requires Valid(net)
    requires SearchOutcome(net, d, gw, route)
    ensures var r := ShortestPathToGw(net, d, gw, route);
      r.1.Success? ==> forall i :: 0 <= i < |route.value| - 1 ==>
        || TouchesDevice((route.value[i], route.value[i + 1]))
        || net.links[r.1.value[2 * i]].available >= d.throughputReq
  {
    var r := ShortestPathToGw(net, d, gw, route);
    if r.1.Success? {
      var p := route.value;
      forall i | 0 <= i < |p| - 1
        ensures TouchesDevice((p[i], p[i + 1])) || net.links[r.1.value[2 * i]].available >= d.throughputReq
      {
        var e := (p[i], p[i + 1]);
        assert e in Prune(net, d);
        assert !Starved(net, e, d);
      }
    }
  }

  /** A returned route fails only for lack of an edge back along one of its hops. */
  lemma MissingEdgeIsReverse(net: Network, d: Device, gw: Node, route: Option<seq<Vertex>>)
    requires Valid(net)
    requires SearchOutcome(net, d, gw, route)
    ensures ShortestPathToGw(net, d, gw, route).1 == Failure(MissingEdge) ==>
      && route.Some?
      && exists i :: 0 <= i < |route.value| - 1 && (route.value[i + 1], route.value[i]) !in net.edges
  {
    if ShortestPathToGw(net, d, gw, route).1 == Failure(MissingEdge) {
      assert !ZeroCeilingSurvives(net, d) && route.Some?;
      var p := route.value;
      assert PairLinks(net.edges, p).None?;
      var i :| 0 <= i < |p| - 1 && !((p[i], p[i + 1]) in net.edges && (p[i + 1], p[i]) in net.edges);
      assert (p[i], p[i + 1]) in Prune(net, d);
    }
  }

  /** A failed search leaves a network that is still valid, only with fewer edges. */
  lemma FailedSearchKeepsValid(net: Network, d: Device)
    requires Valid(net)
    ensures Valid(net.(edges := Prune(net, d)))
  {
    var net' := net.(edges := Prune(net, d));
    assert NodesValid(net') && DevicesValid(net') && LinksValid(net');
    forall e | e in net'.edges ensures IsVertex(net', e.0) && IsVertex(net', e.1) {
      assert IsVertex(net, e.0) && IsVertex(net, e.1);
    }
  }
}
