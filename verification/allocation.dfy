/** The admission and allocation engine: all-or-nothing path assignment, flow lookup and
    release. */
module Allocation {
  import opened Seqs
  import opened NetworkDevice
  import opened NetworkLink
  import opened Topology

  /** Every link named by `path` is a link of the arena (Python passes link objects). */
  predicate InArena(links: map<int, Link>, path: seq<int>) {
    forall i :: 0 <= i < |path| ==> path[i] in links
  }

  /** Phase 1 of `assign_path_to_device`: every link of the path can take the flow. */
  predicate AllCanRoute(links: map<int, Link>, path: seq<int>, d: Device)
    requires InArena(links, path)
  {
    forall i :: 0 <= i < |path| ==> CanRouteFlow(links[path[i]], d)
  }

  /** Phase 2: `route_new_flow` on each link of the path in order. A link listed twice is
      routed once; its second call fails silently. */
  function RouteAll(links: map<int, Link>, path: seq<int>, d: Device): (r: map<int, Link>)
    requires InArena(links, path)
    ensures r.Keys == links.Keys
    ensures forall k :: k in links ==> r[k] == (if k in path then RouteNewFlow(links[k], d).0 else links[k])
    decreases |path|
  {
    if |path| == 0 then links
    else
      var k := path[0];
      var links' := links[k := RouteNewFlow(links[k], d).0];
      var r := RouteAll(links', path[1..], d);
      assert forall j :: j in path[1..] ==> j in path;
      RouteNewFlowIdempotent(links[k], d);
      r
  }

  /** `free_path_device`: `remove_flow` on each link of the path in order. */
  function ReleaseAll(links: map<int, Link>, path: seq<int>, d: Device): (r: map<int, Link>)
    requires InArena(links, path)
    ensures r.Keys == links.Keys
    ensures forall k :: k in links ==> r[k] == (if k in path then RemoveFlow(links[k], d).0 else links[k])
    decreases |path|
  {
    if |path| == 0 then links
    else
      var k := path[0];
      var links' := links[k := RemoveFlow(links[k], d).0];
      var r := ReleaseAll(links', path[1..], d);
      assert forall j :: j in path[1..] ==> j in path;
      RemoveFlowIdempotent(links[k], d);
      r
  }

  /** `assign_path_to_device`. If some link of the path cannot take the flow, it returns
      false and nothing changes. Otherwise it returns true and every link of the path has
      gained the device and lost exactly its throughput requirement, once, even when the
      path lists the link twice. No other link and nothing else changes. */
  function AssignPath(net: Network, d: Device, path: seq<int>): (r: (Network, bool))
    requires InArena(net.links, path)
    ensures r.1 <==> forall i :: 0 <= i < |path| ==> CanRouteFlow(net.links[path[i]], d)
    ensures !r.1 ==> r.0 == net
    ensures r.1 ==> r.0 == net.(links := r.0.links) && r.0.links.Keys == net.links.Keys
    ensures r.1 ==> forall k :: k in net.links ==>
      r.0.links[k] == (if k in path then Admitted(net.links[k], d) else net.links[k])
  {
    if !AllCanRoute(net.links, path, d) then (net, false)
    else
      assert forall k :: k in path ==> CanRouteFlow(net.links[k], d);
      (net.(links := RouteAll(net.links, path, d)), true)
  }

  /** `free_path_device`. Every link of the path on which the device is routed releases it
      and is credited its requirement; links of the path without the device and links
      outside the path are unchanged. The path is not checked against the device's
      actual path. */
  function FreePath(net: Network, d: Device, path: seq<int>): (r: Network)
    requires InArena(net.links, path)
    ensures r == net.(links := r.links) && r.links.Keys == net.links.Keys
    ensures forall k :: k in net.links ==>
      r.links[k] == (if k in path && d.id in net.links[k].flows then Released(net.links[k], d) else net.links[k])
  {
    net.(links := ReleaseAll(net.links, path, d))
  }

  /** The links among `ks` that are in the arena and carry the device, in the order of `ks`. */
  function CarryingAmong(net: Network, d: Device, ks: seq<int>): seq<int> {
    Filter(ks, (k: int) => k in net.links && d.id in net.links[k].flows)
  }

  /** The links of `_network_links` whose flow set holds the device, in that order: the
      reference for `get_path_device`. */
  function LinksCarrying(net: Network, d: Device): seq<int> {
    CarryingAmong(net, d, net.linkOrder)
  }

  /** One more scanned link extends the result by that link exactly when it carries the
      device. */
  lemma CarryingAmongSnoc(net: Network, d: Device, ks: seq<int>, k: int)
    ensures CarryingAmong(net, d, ks + [k]) ==
      CarryingAmong(net, d, ks) + (if k in net.links && d.id in net.links[k].flows then [k] else [])
  {
    FilterAppend(ks, [k], (k: int) => k in net.links && d.id in net.links[k].flows);
  }

  /** `get_path_device`: a scan of `_network_links` collecting the links that carry the
      device. */
  method GetPathDevice(net: Network, d: Device) returns (r: seq<int>)
    ensures r == LinksCarrying(net, d)
    ensures forall k :: k in r <==> k in net.linkOrder && k in net.links && d.id in net.links[k].flows
  {
    r := [];
    var i := 0;
    while i < |net.linkOrder|
      invariant 0 <= i <= |net.linkOrder|
      invariant r == CarryingAmong(net, d, net.linkOrder[..i])
    {
      var k := net.linkOrder[i];
      CarryingAmongSnoc(net, d, net.linkOrder[..i], k);
      assert net.linkOrder[..i + 1] == net.linkOrder[..i] + [k];
      if k in net.links && d.id in net.links[k].flows {
        r := r + [k];
      }
      i := i + 1;
    }
    assert net.linkOrder[..i] == net.linkOrder;
  }

  /** Assigning a path and then freeing the same path restores the network exactly. */
  lemma AssignThenFree(net: Network, d: Device, path: seq<int>)
    requires InArena(net.links, path)
    requires AssignPath(net, d, path).1
    ensures FreePath(AssignPath(net, d, path).0, d, path) == net
  {
    var routed := AssignPath(net, d, path).0;
    var freed := FreePath(routed, d, path);
    forall k | k in net.links ensures freed.links[k] == net.links[k] {
      if k in path {
        var i :| 0 <= i < |path| && path[i] == k;
        assert CanRouteFlow(net.links[k], d);
        RouteThenRemove(net.links[k], d);
      }
    }
    assert freed.links == net.links;
  }

  /** A path that lists one admissible link twice is accepted: phase 1 passes both entries,
      the second `route_new_flow` fails silently, and the link is debited once. */
  lemma DuplicateLinkAcceptedOnce(net: Network, d: Device, k: int)
    requires k in net.links && CanRouteFlow(net.links[k], d)
    ensures AssignPath(net, d, [k, k]).1
    ensures !RouteNewFlow(RouteNewFlow(net.links[k], d).0, d).1
    ensures AssignPath(net, d, [k, k]).0.links[k] == Admitted(net.links[k], d)
  {
    RouteNewFlowIdempotent(net.links[k], d);
  }

  /** After a successful assignment of a device that was routed nowhere, the links found
      to carry it are exactly the arena links of the path. */
  lemma AssignedPathIsFound(net: Network, d: Device, path: seq<int>)
    requires Valid(net) && InArena(net.links, path)
    requires LinksCarrying(net, d) == []
    requires AssignPath(net, d, path).1
    ensures forall k :: k in LinksCarrying(AssignPath(net, d, path).0, d) <==> k in path
  {
    var net' := AssignPath(net, d, path).0;
    forall k | k in path ensures k in LinksCarrying(net', d) {
      var i :| 0 <= i < |path| && path[i] == k;
      assert k in net.linkOrder;
    }
    forall k | k !in path ensures k !in LinksCarrying(net', d) {
      if k in net.links {
        assert net'.links[k] == net.links[k];
      }
      assert k !in LinksCarrying(net, d);
    }
  }

  /** Assignment and release touch only the link arena, so they keep the network valid. */
  lemma AllocationKeepsValid(net: Network, d: Device, path: seq<int>)
    requires Valid(net) && InArena(net.links, path)
    ensures Valid(AssignPath(net, d, path).0)
    ensures Valid(FreePath(net, d, path))
  {
    LinkStatesKeepValid(net, AssignPath(net, d, path).0.links);
    LinkStatesKeepValid(net, FreePath(net, d, path).links);
  }
}
