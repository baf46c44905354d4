/** The next-hop enumerator used to build a path one link at a time (`get_next_link`). */
module HopEnumerator {
  import opened Wrappers
  import opened Graph
  import opened Topology

  /** A graph edge as `networkx` reports it: source, destination and the carried link. */
  type ExtendedLink = (Vertex, Vertex, int)

  datatype HopError =
    | NoGateway        // `gateways[0]` on an empty list
    | NoPathToGateway  // `shortest_path_length` found no path for some vertex

  /** The unweighted hop distance from `v` to the first gateway. */
  function HopsToGateway(net: Network, v: Vertex): Option<nat>
    requires |net.gateways| > 0
  {
    HopDistance(net.edges.Keys, v, NodeVertex(net.gateways[0].id))
  }

  /** Some out-neighbour of `v` cannot reach the first gateway. */
  predicate DeadEndNeighbour(net: Network, v: Vertex)
    requires |net.gateways| > 0
  {
    exists e :: e in net.edges && e.0 == v && HopsToGateway(net, e.1).None?
  }

  /** `get_next_link`: the out-edges of the current link's destination that lead to a vertex
      no farther, in hops, from the first gateway. Fails when there is no gateway, and when
      the destination or any of its out-neighbours cannot reach the gateway. */
  function NextLinks(net: Network, current: ExtendedLink): (r: Result<set<ExtendedLink>, HopError>)
    ensures r == Failure(NoGateway) <==> |net.gateways| == 0
    ensures r.Failure? && |net.gateways| > 0 ==>
      HopsToGateway(net, current.1).None? || DeadEndNeighbour(net, current.1)
    ensures r.Success? ==> HopsToGateway(net, current.1).Some? && !DeadEndNeighbour(net, current.1)
    ensures r.Success? ==> forall c :: c in r.value ==>
      && c.0 == current.1 && (c.0, c.1) in net.edges && net.edges[(c.0, c.1)] == c.2
      && HopsToGateway(net, c.1).Some?
      && HopsToGateway(net, c.1).value <= HopsToGateway(net, current.1).value
    ensures r.Success? ==> forall w ::
      ((current.1, w) in net.edges && HopsToGateway(net, w).Some?
        && HopsToGateway(net, w).value <= HopsToGateway(net, current.1).value)
      ==> (current.1, w, net.edges[(current.1, w)]) in r.value
  {
    if |net.gateways| == 0 then Failure(NoGateway)
    else
      var v := current.1;
      var limit := HopsToGateway(net, v);
      if limit.None? then Failure(NoPathToGateway)
      else if DeadEndNeighbour(net, v) then Failure(NoPathToGateway)
      else
        var r := set e | e in net.edges && e.0 == v && HopsToGateway(net, e.1).value <= limit.value
                       :: (e.0, e.1, net.edges[e]);
        assert forall w ::
          ((v, w) in net.edges && HopsToGateway(net, w).Some? && HopsToGateway(net, w).value <= limit.value)
          ==> (v, w, net.edges[(v, w)]) in r by {
          forall w | (v, w) in net.edges && HopsToGateway(net, w).Some? && HopsToGateway(net, w).value <= limit.value
            ensures (v, w, net.edges[(v, w)]) in r
          {
            var e := (v, w);
            assert e.0 == v && e.1 == w;
          }
        }
        Success(r)
  }

  /** Reaching the gateway ends the walk: the only hop that can leave the gateway is a
      self-loop on it. */
  lemma GatewayOnlyLoops(net: Network, current: ExtendedLink)
    requires |net.gateways| > 0
    requires current.1 == NodeVertex(net.gateways[0].id)
    requires NextLinks(net, current).Success?
    ensures forall c :: c in NextLinks(net, current).value ==> c.0 == c.1 == current.1
  {
    var g := current.1;
    assert ReachWithin(net.edges.Keys, g, g, 0);
    forall c | c in NextLinks(net, current).value ensures c.1 == g {
      assert ReachWithin(net.edges.Keys, c.1, g, HopsToGateway(net, c.1).value);
    }
  }

  /** So in a network without a self-loop on the gateway, the gateway has no next hop. */
  lemma GatewayIsTerminal(net: Network, current: ExtendedLink)
    requires |net.gateways| > 0
    requires current.1 == NodeVertex(net.gateways[0].id)
    requires (current.1, current.1) !in net.edges
    requires NextLinks(net, current).Success?
    ensures NextLinks(net, current).value == {}
  {
    GatewayOnlyLoops(net, current);
  }

  /** Away from the gateway, a successful call always offers a hop that brings the walk
      exactly one hop closer. */
  lemma SomeHopMakesProgress(net: Network, current: ExtendedLink)
    requires |net.gateways| > 0
    requires current.1 != NodeVertex(net.gateways[0].id)
    requires NextLinks(net, current).Success?
    ensures exists c :: (c in NextLinks(net, current).value
      && HopsToGateway(net, c.1).value + 1 == HopsToGateway(net, current.1).value)
  {
    var v := current.1;
    var g := NodeVertex(net.gateways[0].id);
    var es := net.edges.Keys;
    var k := HopsToGateway(net, v).value;
    assert !ReachWithin(es, v, g, 0);
    NeighbourOneCloser(es, v, g);
    var w :| (v, w) in es && HopDistance(es, w, g) == Some(k - 1);
    assert (v, w, net.edges[(v, w)]) in NextLinks(net, current).value;
  }
}
