/** One direction of a physical link: its capacity accounting and the set of device flows
    routed through it. Each direction is a separate link with its own state. */
module NetworkLink {
  import Decimal
  import opened NetworkDevice

  /** `flows` holds device ids: a Python set of device objects compares by identity, and
      device ids are unique. */
  datatype Link = Link(id: int, name: string, maxThroughput: real, available: real,
                       flows: set<int>)

  /** The capacity invariant every link is meant to keep. */
  predicate InBounds(l: Link) {
    0.0 <= l.available <= l.maxThroughput
  }

  /** The state of `l` after `d`'s flow has been admitted: the device joins the flow set and
      its requirement is debited from the available capacity. */
  function Admitted(l: Link, d: Device): Link {
    l.(available := l.available - d.throughputReq, flows := l.flows + {d.id})
  }

  /** The state of `l` after `d`'s flow has been released: the device leaves the flow set
      and its requirement is credited back. */
  function Released(l: Link, d: Device): Link {
    l.(available := l.available + d.throughputReq, flows := l.flows - {d.id})
  }

  /** The link constructor. Defaults: 1000 Gb/s ceiling, 1000 Gb/s available, no flows.
      An available capacity above the ceiling is lowered to the ceiling (there is no lower
      clamp). An empty name becomes the decimal text of the id. */
  function NewLink(id: int, name: string := "", maxThroughput: real := 1000.0,
                   available: real := 1000.0, routedFlows: seq<int> := []): (l: Link)
    ensures l.id == id && l.maxThroughput == maxThroughput
    ensures l.available <= maxThroughput && l.available <= available
    ensures l.available == available || l.available == maxThroughput
    ensures forall x :: x in l.flows <==> x in routedFlows
    ensures name != "" ==> l.name == name
    ensures name == "" ==> l.name == Decimal.IntToString(id)
  {
    Link(id, if name == "" then Decimal.IntToString(id) else name, maxThroughput,
         if available > maxThroughput then maxThroughput else available,
         set x | x in routedFlows)
  }

  /** The `name` setter (used when a UAV is re-attached). */
  function SetName(l: Link, name: string): (r: Link)
    ensures r.name == name
    ensures r.(name := l.name) == l
  {
    l.(name := name)
  }

  /** The `available_throughput` setter. A value in [0, max] is stored and true returned;
      any other value is silently rejected and the link is unchanged. */
  function SetAvailable(l: Link, v: real): (r: (Link, bool))
    ensures r.1 <==> 0.0 <= v <= l.maxThroughput
    ensures r.1 ==> r.0.available == v && InBounds(r.0)
    ensures r.0.(available := l.available) == l
    ensures !r.1 ==> r.0 == l
  {
    if v >= 0.0 && v <= l.maxThroughput then (l.(available := v), true) else (l, false)
  }

  /** `can_route_flow`: the requirement fits in the available capacity and the device is
      not already routed through the link. */
  function CanRouteFlow(l: Link, d: Device): (ok: bool)
    ensures ok <==> d.throughputReq <= l.available && d.id !in l.flows
  {
    if l.available - d.throughputReq < 0.0 then false
    else if d.id in l.flows then false
    else true
  }

  /** `route_new_flow`: re-checks `can_route_flow`; on success admits the flow and returns
      true, otherwise returns false and leaves the link unchanged. */
  function RouteNewFlow(l: Link, d: Device): (r: (Link, bool))
    ensures r.1 == CanRouteFlow(l, d)
    ensures r.1 ==> r.0 == Admitted(l, d) && r.0.available >= 0.0 && d.id in r.0.flows
    ensures !r.1 ==> r.0 == l
  {
    if l.available - d.throughputReq < 0.0 then (l, false)
    else if d.id in l.flows then (l, false)
    else (l.(flows := l.flows + {d.id}, available := l.available - d.throughputReq), true)
  }

  /** `remove_flow`: if the device is routed, releases its flow and returns true; otherwise
      returns false and leaves the link unchanged. */
  function RemoveFlow(l: Link, d: Device): (r: (Link, bool))
    ensures r.1 <==> d.id in l.flows
    ensures r.1 ==> r.0 == Released(l, d) && d.id !in r.0.flows
    ensures !r.1 ==> r.0 == l
  {
    if d.id in l.flows then
      (l.(flows := l.flows - {d.id}, available := l.available + d.throughputReq), true)
    else (l, false)
  }

  /** Routing a flow and then removing it restores the link exactly. */
  lemma RouteThenRemove(l: Link, d: Device)
    requires RouteNewFlow(l, d).1
    ensures RemoveFlow(RouteNewFlow(l, d).0, d) == (l, true)
  {
    var routed := RouteNewFlow(l, d).0;
    assert routed.flows - {d.id} == l.flows;
  }

  /** Removing a routed flow and routing it again restores the link, provided the link's
      capacity was not negative. */
  lemma RemoveThenRoute(l: Link, d: Device)
    requires d.id in l.flows && l.available >= 0.0
    ensures RouteNewFlow(RemoveFlow(l, d).0, d) == (l, true)
  {
    var removed := RemoveFlow(l, d).0;
    assert removed.flows + {d.id} == l.flows;
  }

  /** A second admission of the same device is refused and changes nothing: routing is
      idempotent. */
  lemma RouteNewFlowIdempotent(l: Link, d: Device)
    ensures !RouteNewFlow(RouteNewFlow(l, d).0, d).1
    ensures RouteNewFlow(RouteNewFlow(l, d).0, d).0 == RouteNewFlow(l, d).0
  {
  }

  /** A second release of the same device is refused and changes nothing. */
  lemma RemoveFlowIdempotent(l: Link, d: Device)
    ensures !RemoveFlow(RemoveFlow(l, d).0, d).1
    ensures RemoveFlow(RemoveFlow(l, d).0, d).0 == RemoveFlow(l, d).0
  {
  }

  /** With a non-negative requirement, admission keeps the capacity within [0, max]. */
  lemma RouteNewFlowKeepsBounds(l: Link, d: Device)
    requires InBounds(l) && d.throughputReq >= 0.0
    ensures InBounds(RouteNewFlow(l, d).0)
  {
  }

  /** Flows handed to the constructor are not debited, so releasing one of them credits
      capacity that was never taken: a link built at its ceiling with a seeded flow of
      positive requirement ends above its ceiling once that flow is removed. */
  lemma ReleasingSeededFlowExceedsCeiling(id: int, maxThroughput: real, d: Device)
    requires d.throughputReq > 0.0
    ensures var l := NewLink(id, "", maxThroughput, maxThroughput, [d.id]);
      && RemoveFlow(l, d).1
      && RemoveFlow(l, d).0.available == l.maxThroughput + d.throughputReq
      && !InBounds(RemoveFlow(l, d).0)
  {
  }
}
