/** The discrete events that drive the simulation: a UAV re-attaching to another access
    point, and an inactive camera starting to stream. The random draws are index
    parameters; the caller may pass any index in the range `random.randint` would draw. */
module Events {
  import opened Wrappers
  import opened Seqs
  import opened Graph
  import opened NetworkNode
  import opened NetworkDevice
  import opened NetworkLink
  import opened Topology

  datatype EventError =
    | NoUavs             // `randint(0, -1)`: there is no UAV to pick
    | NoAttachment       // the UAV has no in-edge or no out-edge (`list(...)[0]` fails)
    | EdgeAlreadyRemoved // in-edge and out-edge are one self-loop: its second removal fails
    | InvalidState       // fewer than two access points (`randint(0, len - 2)` fails)
    | NoInactiveDevices  // `randint(0, -1)`: every camera is already active

  /** The first vertex of `vs` with an edge into `v`. */
  function FirstPredecessor(vs: seq<Vertex>, es: map<Edge, int>, v: Vertex): (r: Option<Vertex>)
    ensures r.Some? ==> (r.value, v) in es && r.value in vs
    ensures r.None? ==> forall u :: u in vs ==> (u, v) !in es
    decreases |vs|
  {
    if |vs| == 0 then None
    else if (vs[0], v) in es then Some(vs[0])
    else FirstPredecessor(vs[1..], es, v)
  }

  /** The first vertex of `vs` with an edge from `v`. */
  function FirstSuccessor(vs: seq<Vertex>, es: map<Edge, int>, v: Vertex): (r: Option<Vertex>)
    ensures r.Some? ==> (v, r.value) in es && r.value in vs
    ensures r.None? ==> forall u :: u in vs ==> (v, u) !in es
    decreases |vs|
  {
    if |vs| == 0 then None
    else if (v, vs[0]) in es then Some(vs[0])
    else FirstSuccessor(vs[1..], es, v)
  }

  /** The access points other than the vertex `current`. */
  function OtherAccessPoints(net: Network, current: Vertex): seq<Node> {
    Filter(net.accessPoints, (n: Node) => NodeVertex(n.id) != current)
  }

  /** Removing the current attachment point drops at most one access point, because access
      point ids are distinct. */
  lemma OtherAccessPointsLength(net: Network, current: Vertex)
    requires Valid(net)
    ensures |OtherAccessPoints(net, current)| + 1 >= |net.accessPoints|
  {
    FilterKeepsDistinctBy(net.nodes, (n: Node) => n.nodeType == AP, (n: Node) => n.id);
    var aps := net.accessPoints;
    FilterDropsAtMostOne(aps, (n: Node) => NodeVertex(n.id) != current);
  }

  /** `u` is attached to `a` alone: one edge `a -> u`, one edge `u -> a`, and no other edge
      at `u`. */
  ghost predicate AttachedTo(es: map<Edge, int>, u: Vertex, a: Vertex) {
    && (a, u) in es && (u, a) in es
    && forall e :: e in es && (e.0 == u || e.1 == u) ==> e == (a, u) || e == (u, a)
  }

  /** The edge map after the UAV `uv` leaves `inSrc -> uv` and `uv -> outDst` and joins
      `apv`: the link that sat on the in-edge goes on `uv -> apv` and the link that sat on
      the out-edge goes on `apv -> uv`. */
  function Reattached(es: map<Edge, int>, uv: Vertex, inSrc: Vertex, outDst: Vertex, apv: Vertex): (r: map<Edge, int>)
    requires (inSrc, uv) in es && (uv, outDst) in es
    ensures forall e :: e in r ==>
      || (e in es && r[e] == es[e])
      || (e == (uv, apv) && r[e] in es.Values)
      || (e == (apv, uv) && r[e] in es.Values)
    ensures forall e: Edge :: e.0 != uv && e.1 != uv ==>
      (e in r <==> e in es) && (e in es ==> r[e] == es[e])
    ensures apv != uv ==> && (uv, apv) in r && r[(uv, apv)] == es[(inSrc, uv)]
                          && (apv, uv) in r && r[(apv, uv)] == es[(uv, outDst)]
    ensures inSrc != apv ==> (inSrc, uv) !in r
    ensures outDst != apv ==> (uv, outDst) !in r
  {
    (es - {(inSrc, uv), (uv, outDst)})[(uv, apv) := es[(inSrc, uv)]][(apv, uv) := es[(uv, outDst)]]
  }

  /** The link table after renaming the two links a UAV takes with it to access point `ap`. */
  function RenamedLinks(links: map<int, Link>, inLink: int, outLink: int, apName: string, uavName: string): (r: map<int, Link>)
    requires inLink in links && outLink in links
    ensures r.Keys == links.Keys
    ensures forall k :: k in links && k != inLink && k != outLink ==> r[k] == links[k]
    ensures forall k :: k in links ==> r[k] == links[k].(name := r[k].name)
    ensures outLink != inLink ==> r[inLink].name == apName + " | " + uavName
    ensures r[outLink].name == uavName + " | " + apName
  {
    var renamed := links[inLink := SetName(links[inLink], apName + " | " + uavName)];
    renamed[outLink := SetName(renamed[outLink], uavName + " | " + apName)]
  }

  /** The last step of the UAV event: the UAV `u` leaves `inSrc -> u` and `u -> outDst` and
      joins the access point `ap`, taking both links with it, renamed; no other link
      changes. */
  function MoveUav(net: Network, u: int, inSrc: Vertex, outDst: Vertex, ap: Node): (r: Network)
    requires (inSrc, DeviceVertex(u)) in net.edges && (DeviceVertex(u), outDst) in net.edges
    requires net.edges[(inSrc, DeviceVertex(u))] in net.links && net.edges[(DeviceVertex(u), outDst)] in net.links
    requires u in net.devices
    ensures r == net.(links := r.links, edges := r.edges)
    ensures r.edges == Reattached(net.edges, DeviceVertex(u), inSrc, outDst, NodeVertex(ap.id))
    ensures r.links.Keys == net.links.Keys
    ensures forall k :: k in net.links ==> r.links[k] == net.links[k].(name := r.links[k].name)
    ensures forall k :: k in net.links && r.links[k] != net.links[k] ==>
      k == net.edges[(inSrc, DeviceVertex(u))] || k == net.edges[(DeviceVertex(u), outDst)]
  {
    var uv := DeviceVertex(u);
    var links := RenamedLinks(net.links, net.edges[(inSrc, uv)], net.edges[(uv, outDst)],
                              ap.name, net.devices[u].name);
    net.(links := links, edges := Reattached(net.edges, uv, inSrc, outDst, NodeVertex(ap.id)))
  }

  /** `generate_uav_event`. Picks the UAV `uavs[uavIndex]` and marks it active; takes its
      first in-edge, from its current access point, and its first out-edge and removes
      both; then, given at least two access points, picks another access point and puts
      the in-edge's link on UAV -> new AP and the out-edge's link on new AP -> UAV, renaming
      both. Each failure keeps what was done before it: the UAV stays active; when its only
      edges are one self-loop, that edge is gone; with too few access points, its two edges
      are gone. */
  function GenerateUavEvent(net: Network, uavIndex: nat, apIndex: nat): (r: (Network, Result<int, EventError>))
    requires Valid(net)
    requires |net.uavs| == 0 || uavIndex < |net.uavs|
    requires |net.accessPoints| < 2 || apIndex <= |net.accessPoints| - 2
    ensures r.1 == Failure(NoUavs) <==> |net.uavs| == 0
    ensures |net.uavs| == 0 ==> r.0 == net
    ensures |net.uavs| > 0 ==> var u := net.uavs[uavIndex];
      r.0.devices == net.devices[u := SetActive(net.devices[u], true)]
    ensures r.1.Success? ==> r.1.value == net.uavs[uavIndex]
    ensures |net.uavs| > 0 && |net.accessPoints| < 2 ==> r.1.Failure?
    ensures r.0 == net.(devices := r.0.devices, links := r.0.links, edges := r.0.edges)
    ensures r.0.links.Keys == net.links.Keys
    ensures forall k :: k in net.links ==> r.0.links[k] == net.links[k].(name := r.0.links[k].name)
    ensures r.1.Failure? ==> r.0.links == net.links
    ensures r.1 == Failure(NoAttachment) ==> r.0.edges == net.edges
    ensures |net.uavs| > 0 && ((forall e :: e in net.edges ==> e.1 != DeviceVertex(net.uavs[uavIndex]))
                               || (forall e :: e in net.edges ==> e.0 != DeviceVertex(net.uavs[uavIndex])))
      ==> r.1 == Failure(NoAttachment)
    ensures |net.uavs| > 0 ==> forall k :: k in net.links && r.0.links[k] != net.links[k] ==>
      exists e :: e in net.edges && net.edges[e] == k
        && (e.0 == DeviceVertex(net.uavs[uavIndex]) || e.1 == DeviceVertex(net.uavs[uavIndex]))
  {
    if |net.uavs| == 0 then (net, Failure(NoUavs))
    else
      var u := net.uavs[uavIndex];
      var uv := DeviceVertex(u);
      var activated := net.(devices := net.devices[u := SetActive(net.devices[u], true)]);
      var vs := Vertices(net);
      match (FirstPredecessor(vs, net.edges, uv), FirstSuccessor(vs, net.edges, uv))
      case (None, _) => (activated, Failure(NoAttachment))
      case (Some(_), None) => (activated, Failure(NoAttachment))
      case (Some(currentAp), Some(outDst)) =>
        if currentAp == uv && outDst == uv then
          (activated.(edges := net.edges - {(uv, uv)}), Failure(EdgeAlreadyRemoved))
        else if |net.accessPoints| < 2 then
          (activated.(edges := net.edges - {(currentAp, uv), (uv, outDst)}), Failure(InvalidState))
        else
          OtherAccessPointsLength(net, currentAp);
          var ap := OtherAccessPoints(net, currentAp)[apIndex];
          (MoveUav(activated, u, currentAp, outDst, ap), Success(u))
  }

  /** Re-attaching a vertex that hung off `a` alone leaves it hanging off `apv` alone, with
      the two link ids swapped across directions and every other edge untouched. */
  lemma ReattachedAttaches(es: map<Edge, int>, uv: Vertex, a: Vertex, apv: Vertex)
    requires AttachedTo(es, uv, a) && apv != uv
    ensures var r := Reattached(es, uv, a, a, apv);
      && AttachedTo(r, uv, apv)
      && r[(uv, apv)] == es[(a, uv)] && r[(apv, uv)] == es[(uv, a)]
      && (forall e: Edge :: e.0 != uv && e.1 != uv ==>
            (e in r <==> e in es) && (e in es ==> r[e] == es[e]))
  {
  }

  /** Under a single attachment to `a`, the event succeeds and the new edge map is the
      re-attachment to the drawn access point. */
  lemma UavEventOutcome(net: Network, uavIndex: nat, apIndex: nat, a: Vertex)
    requires Valid(net)
    requires 0 < |net.uavs| && uavIndex < |net.uavs|
    requires 2 <= |net.accessPoints| && apIndex <= |net.accessPoints| - 2
    requires AttachedTo(net.edges, DeviceVertex(net.uavs[uavIndex]), a)
    requires a != DeviceVertex(net.uavs[uavIndex])
    ensures apIndex < |OtherAccessPoints(net, a)|
    ensures var r := GenerateUavEvent(net, uavIndex, apIndex);
      && r.1.Success?
      && r.0.edges == Reattached(net.edges, DeviceVertex(net.uavs[uavIndex]), a, a,
                                 NodeVertex(OtherAccessPoints(net, a)[apIndex].id))
  {
    var uv := DeviceVertex(net.uavs[uavIndex]);
    assert IsVertex(net, a);
    VertexListed(net, a);
    assert FirstPredecessor(Vertices(net), net.edges, uv) == Some(a);
    assert FirstSuccessor(Vertices(net), net.edges, uv) == Some(a);
    OtherAccessPointsLength(net, a);
  }

  /** A UAV attached to one access point `a` is re-attached to exactly one other access
      point: its link objects move with it, the link that sat on `a -> UAV` now on
      UAV -> new AP and the one on `UAV -> a` now on new AP -> UAV, and every edge that
      does not touch the UAV is unchanged. */
  lemma UavEventReattaches(net: Network, uavIndex: nat, apIndex: nat, a: Vertex)
    requires Valid(net)
    requires 0 < |net.uavs| && uavIndex < |net.uavs|
    requires 2 <= |net.accessPoints| && apIndex <= |net.accessPoints| - 2
    requires AttachedTo(net.edges, DeviceVertex(net.uavs[uavIndex]), a)
    requires a != DeviceVertex(net.uavs[uavIndex])
    ensures var r := GenerateUavEvent(net, uavIndex, apIndex); var uv := DeviceVertex(net.uavs[uavIndex]);
      && r.1 == Success(net.uavs[uavIndex])
      && r.0.devices[net.uavs[uavIndex]].isActive
      && (exists ap :: ap in net.accessPoints && NodeVertex(ap.id) != a
            && AttachedTo(r.0.edges, uv, NodeVertex(ap.id))
            && r.0.edges[(uv, NodeVertex(ap.id))] == net.edges[(a, uv)]
            && r.0.edges[(NodeVertex(ap.id), uv)] == net.edges[(uv, a)])
      && (forall e: Edge :: e.0 != uv && e.1 != uv ==>
            (e in r.0.edges <==> e in net.edges) && (e in net.edges ==> r.0.edges[e] == net.edges[e]))
  {
    var uv := DeviceVertex(net.uavs[uavIndex]);
    UavEventOutcome(net, uavIndex, apIndex, a);
    var ap := OtherAccessPoints(net, a)[apIndex];
    assert ap in OtherAccessPoints(net, a);
    ReattachedAttaches(net.edges, uv, a, NodeVertex(ap.id));
  }

  /** With fewer than two access points the event fails only after it has changed the
      network: the UAV is active and both of its edges are gone. */
  lemma UavEventTooFewAccessPoints(net: Network, uavIndex: nat, apIndex: nat, a: Vertex)
    requires Valid(net)
    requires 0 < |net.uavs| && uavIndex < |net.uavs|
    requires |net.accessPoints| < 2
    requires AttachedTo(net.edges, DeviceVertex(net.uavs[uavIndex]), a)
    requires a != DeviceVertex(net.uavs[uavIndex])
    ensures var r := GenerateUavEvent(net, uavIndex, apIndex); var uv := DeviceVertex(net.uavs[uavIndex]);
      && r.1 == Failure(InvalidState)
      && r.0.devices[net.uavs[uavIndex]].isActive
      && (a, uv) !in r.0.edges && (uv, a) !in r.0.edges
      && (forall e :: e in net.edges && e != (a, uv) && e != (uv, a) ==> e in r.0.edges && r.0.edges[e] == net.edges[e])
  {
    var uv := DeviceVertex(net.uavs[uavIndex]);
    assert IsVertex(net, a);
    VertexListed(net, a);
    assert FirstPredecessor(Vertices(net), net.edges, uv) == Some(a);
    assert FirstSuccessor(Vertices(net), net.edges, uv) == Some(a);
  }

  /** A UAV whose only edge is a self-loop makes the event fail: the in-edge and the
      out-edge are that one loop, and removing it a second time raises. The UAV stays
      active and the loop is gone. */
  lemma UavEventSelfLoopFails(net: Network, uavIndex: nat, apIndex: nat)
    requires Valid(net)
    requires 0 < |net.uavs| && uavIndex < |net.uavs|
    requires |net.accessPoints| < 2 || apIndex <= |net.accessPoints| - 2
    requires AttachedTo(net.edges, DeviceVertex(net.uavs[uavIndex]), DeviceVertex(net.uavs[uavIndex]))
    ensures var r := GenerateUavEvent(net, uavIndex, apIndex); var uv := DeviceVertex(net.uavs[uavIndex]);
      && r.1 == Failure(EdgeAlreadyRemoved)
      && r.0.devices[net.uavs[uavIndex]].isActive
      && r.0.edges == net.edges - {(uv, uv)}
  {
    var uv := DeviceVertex(net.uavs[uavIndex]);
    assert IsVertex(net, uv);
    VertexListed(net, uv);
    assert FirstPredecessor(Vertices(net), net.edges, uv) == Some(uv);
    assert FirstSuccessor(Vertices(net), net.edges, uv) == Some(uv);
  }

  /** The event fails for want of an attachment exactly when the chosen UAV has no in-edge
      or no out-edge: `list(...)[0]` raises on an empty edge list and on nothing else. */
  lemma UavEventNoAttachment(net: Network, uavIndex: nat, apIndex: nat)
    requires Valid(net)
    requires 0 < |net.uavs| && uavIndex < |net.uavs|
    requires |net.accessPoints| < 2 || apIndex <= |net.accessPoints| - 2
    ensures var uv := DeviceVertex(net.uavs[uavIndex]);
      (GenerateUavEvent(net, uavIndex, apIndex).1 == Failure(NoAttachment)) <==>
        ((forall e :: e in net.edges ==> e.1 != uv) || (forall e :: e in net.edges ==> e.0 != uv))
  {
    var uv := DeviceVertex(net.uavs[uavIndex]);
    var vs := Vertices(net);
    forall e | e in net.edges
      ensures e.0 in vs && e.1 in vs
    {
      VertexListed(net, e.0);
      VertexListed(net, e.1);
    }
  }

  /** Every access point other than the current one can be drawn: the index range of
      `randint(0, len - 2)` reaches each of them when the current attachment point is an
      access point. */
  lemma EveryOtherAccessPointReachable(net: Network, current: Node, target: Node)
    requires Valid(net)
    requires current in net.accessPoints && target in net.accessPoints && target.id != current.id
    ensures exists i :: (0 <= i < |OtherAccessPoints(net, NodeVertex(current.id))|
      && i <= |net.accessPoints| - 2
      && OtherAccessPoints(net, NodeVertex(current.id))[i] == target)
  {
    var others := OtherAccessPoints(net, NodeVertex(current.id));
    FilterDropsSome(net.accessPoints, (n: Node) => NodeVertex(n.id) != NodeVertex(current.id), current);
    assert target in others;
    var i :| 0 <= i < |others| && others[i] == target;
  }

  /** Every edge after a UAV event is an edge from before with its old link, or joins the
      UAV and an access point and carries a link of the network. */
  lemma UavEventEdges(net: Network, uavIndex: nat, apIndex: nat)
    requires Valid(net)
    requires |net.uavs| == 0 || uavIndex < |net.uavs|
    requires |net.accessPoints| < 2 || apIndex <= |net.accessPoints| - 2
    ensures var r := GenerateUavEvent(net, uavIndex, apIndex).0;
      forall e :: e in r.edges ==>
        || (e in net.edges && r.edges[e] == net.edges[e])
        || (r.edges[e] in net.links
            && exists ap :: ap in net.accessPoints
                 && (e == (DeviceVertex(net.uavs[uavIndex]), NodeVertex(ap.id))
                     || e == (NodeVertex(ap.id), DeviceVertex(net.uavs[uavIndex]))))
  {
    if |net.uavs| > 0 && |net.accessPoints| >= 2 {
      var u := net.uavs[uavIndex];
      var uv := DeviceVertex(u);
      var vs := Vertices(net);
      var pred := FirstPredecessor(vs, net.edges, uv);
      var succ := FirstSuccessor(vs, net.edges, uv);
      if pred.Some? && succ.Some? && !(pred.value == uv && succ.value == uv) {
        OtherAccessPointsLength(net, pred.value);
        var ap := OtherAccessPoints(net, pred.value)[apIndex];
        assert ap in OtherAccessPoints(net, pred.value);
        var r := GenerateUavEvent(net, uavIndex, apIndex).0;
        assert r.edges == Reattached(net.edges, uv, pred.value, succ.value, NodeVertex(ap.id));
        assert forall l :: l in net.edges.Values ==> l in net.links;
      }
    }
  }

  /** Whatever path a UAV event takes, it adds, removes or relinks only edges at the UAV:
      every edge that does not touch the UAV is present after the event exactly when it
      was before, with the same link. */
  lemma UavEventKeepsOtherEdges(net: Network, uavIndex: nat, apIndex: nat)
    requires Valid(net)
    requires |net.uavs| == 0 || uavIndex < |net.uavs|
    requires |net.accessPoints| < 2 || apIndex <= |net.accessPoints| - 2
    ensures var r := GenerateUavEvent(net, uavIndex, apIndex).0;
      |net.uavs| > 0 ==> forall e: Edge ::
        e.0 != DeviceVertex(net.uavs[uavIndex]) && e.1 != DeviceVertex(net.uavs[uavIndex]) ==>
          (e in r.edges <==> e in net.edges) && (e in net.edges ==> r.edges[e] == net.edges[e])
  {
    if |net.uavs| > 0 {
      var r := GenerateUavEvent(net, uavIndex, apIndex);
      var u := net.uavs[uavIndex];
      var uv := DeviceVertex(u);
      var activated := net.(devices := net.devices[u := SetActive(net.devices[u], true)]);
      var vs := Vertices(net);
      var pred := FirstPredecessor(vs, net.edges, uv);
      var succ := FirstSuccessor(vs, net.edges, uv);
      if pred.None? || succ.None? {
        assert r == (activated, Failure(NoAttachment));
      } else if pred.value == uv && succ.value == uv {
        assert r == (activated.(edges := net.edges - {(uv, uv)}), Failure(EdgeAlreadyRemoved));
      } else if |net.accessPoints| < 2 {
        assert r == (activated.(edges := net.edges - {(pred.value, uv), (uv, succ.value)}), Failure(InvalidState));
      } else {
        OtherAccessPointsLength(net, pred.value);
        var ap := OtherAccessPoints(net, pred.value)[apIndex];
        assert r == (MoveUav(activated, u, pred.value, succ.value, ap), Success(u));
      }
    }
  }

  /** A UAV event keeps the network valid. */
  lemma UavEventKeepsValid(net: Network, uavIndex: nat, apIndex: nat)
    requires Valid(net)
    requires |net.uavs| == 0 || uavIndex < |net.uavs|
    requires |net.accessPoints| < 2 || apIndex <= |net.accessPoints| - 2
    ensures Valid(GenerateUavEvent(net, uavIndex, apIndex).0)
  {
    var r := GenerateUavEvent(net, uavIndex, apIndex).0;
    if |net.uavs| > 0 {
      var u := net.uavs[uavIndex];
      assert NodesValid(r);
      assert DevicesValid(r);
      assert LinksValid(r);
      assert forall v :: IsVertex(r, v) == IsVertex(net, v);
      UavEventEdges(net, uavIndex, apIndex);
      forall e | e in r.edges
        ensures r.edges[e] in r.links && IsVertex(r, e.0) && IsVertex(r, e.1)
      {
        if !(e in net.edges && r.edges[e] == net.edges[e]) {
          var ap :| ap in net.accessPoints && (e == (DeviceVertex(u), NodeVertex(ap.id)) || e == (NodeVertex(ap.id), DeviceVertex(u)));
          assert ap in net.nodes;
        }
      }
    }
  }

  /** The ids of the cameras that are not active, in camera-list order. */
  function InactiveCams(net: Network): seq<int> {
    Filter(net.cams, (c: int) => c in net.devices && !net.devices[c].isActive)
  }

  /** `generate_cam_event`. Picks the inactive camera `InactiveCams(net)[camIndex]` and
      marks it active; fails when every camera is active. The `seed` argument is accepted
      and ignored. */
  function GenerateCamEvent(net: Network, camIndex: nat, seed: Option<int>): (r: (Network, Result<int, EventError>))
    requires |InactiveCams(net)| == 0 || camIndex < |InactiveCams(net)|
    ensures r.1.Failure? <==> |InactiveCams(net)| == 0
    ensures r.1.Failure? ==> r.1.error == NoInactiveDevices && r.0 == net
    ensures r.1.Success? ==> var c := r.1.value;
      && c in net.cams && c in net.devices && !net.devices[c].isActive
      && r.0 == net.(devices := net.devices[c := SetActive(net.devices[c], true)])
  {
    var inactive := InactiveCams(net);
    if |inactive| == 0 then (net, Failure(NoInactiveDevices))
    else
      var c := inactive[camIndex];
      assert c in inactive;
      (net.(devices := net.devices[c := SetActive(net.devices[c], true)]), Success(c))
  }

  /** Each camera event activates exactly one inactive camera: the number of inactive
      cameras drops by one. */
  lemma CamEventActivatesOne(net: Network, camIndex: nat, seed: Option<int>)
    requires Valid(net)
    requires camIndex < |InactiveCams(net)|
    ensures var r := GenerateCamEvent(net, camIndex, seed);
      r.1.Success? && |InactiveCams(r.0)| + 1 == |InactiveCams(net)|
  {
    var r := GenerateCamEvent(net, camIndex, seed);
    var c := r.1.value;
    var p := (x: int) => x in net.devices && !net.devices[x].isActive;
    var q := (x: int) => x in r.0.devices && !r.0.devices[x].isActive;
    FilterLosesOne(net.cams, p, q, c);
  }

  /** A camera event keeps the network valid. */
  lemma CamEventKeepsValid(net: Network, camIndex: nat, seed: Option<int>)
    requires Valid(net)
    requires |InactiveCams(net)| == 0 || camIndex < |InactiveCams(net)|
    ensures Valid(GenerateCamEvent(net, camIndex, seed).0)
  {
    var r := GenerateCamEvent(net, camIndex, seed).0;
    assert DevicesValid(r);
    assert forall v :: IsVertex(r, v) == IsVertex(net, v);
  }
}
