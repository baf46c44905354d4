/** The network store: the vertices, the classified vertex lists, the device table, the link
    arena and the edge map, and its construction from already-parsed input. */
module Topology {
  import opened Seqs
  import opened NetworkNode
  import opened NetworkDevice
  import opened NetworkLink
  import opened Graph

  /** The network state. Python keeps the device and link objects in lists and in the graph
      at once; here each lives once, in a table keyed by id, and lists and edges hold ids. */
  datatype Network = Network(
    nodes: seq<Node>,              // `_network_nodes`, input order
    gateways: seq<Node>,           // `_gateways`
    switches: seq<Node>,           // `_switches`
    accessPoints: seq<Node>,       // `_access_points`
    deviceOrder: seq<int>,         // ids of `_network_devices`, input order
    uavs: seq<int>,                // ids of `_uavs`
    cams: seq<int>,                // ids of `_cams`
    devices: map<int, Device>,     // the device objects, by id
    linkOrder: seq<int>,           // ids of `_network_links`, input order
    links: map<int, Link>,         // the link objects, by id
    edges: map<Edge, int>)         // each graph edge and the id of the link it carries

  /** One parsed link: its source vertex, its destination vertex and the link itself. */
  datatype LinkEntry = LinkEntry(src: Vertex, dst: Vertex, link: Link)

  function Endpoints(x: LinkEntry): Edge {
    (x.src, x.dst)
  }

  /** The nodes of `ns` of kind `t`, in input order. */
  function NodesOfType(ns: seq<Node>, t: NodeType): seq<Node> {
    Filter(ns, (n: Node) => n.nodeType == t)
  }

  /** The ids of the devices of `ds` of kind `t`, in input order. */
  function DeviceIdsOfType(ds: seq<Device>, t: DeviceType): seq<int> {
    Ids(Filter(ds, (d: Device) => d.deviceType == t))
  }

  function Ids(ds: seq<Device>): (r: seq<int>)
    ensures |r| == |ds| && forall i :: 0 <= i < |ds| ==> r[i] == ds[i].id
  {
    seq(|ds|, i requires 0 <= i < |ds| => ds[i].id)
  }

  /** `v` is a vertex of the graph. */
  predicate IsVertex(net: Network, v: Vertex) {
    match v
    case NodeVertex(i) => exists n :: n in net.nodes && n.id == i
    case DeviceVertex(i) => i in net.devices
  }

  /** All vertices: the nodes in input order, then the devices in input order. */
  function Vertices(net: Network): (vs: seq<Vertex>)
    ensures forall j :: 0 <= j < |net.nodes| ==> NodeVertex(net.nodes[j].id) in vs
    ensures forall x :: x in net.deviceOrder ==> DeviceVertex(x) in vs
  {
    var nv := seq(|net.nodes|, i requires 0 <= i < |net.nodes| => NodeVertex(net.nodes[i].id));
    var dv := seq(|net.deviceOrder|, i requires 0 <= i < |net.deviceOrder| => DeviceVertex(net.deviceOrder[i]));
    assert forall j :: 0 <= j < |net.nodes| ==> (nv + dv)[j] == NodeVertex(net.nodes[j].id);
    assert forall j :: 0 <= j < |net.deviceOrder| ==> (nv + dv)[|nv| + j] == DeviceVertex(net.deviceOrder[j]);
    nv + dv
  }

  /** The node lists: unique ids, and the classified lists are the node list filtered by
      kind. */
  ghost predicate NodesValid(net: Network) {
    && DistinctBy(net.nodes, (n: Node) => n.id)
    && net.gateways == NodesOfType(net.nodes, GW)
    && net.switches == NodesOfType(net.nodes, SW)
    && net.accessPoints == NodesOfType(net.nodes, AP)
  }

  /** The device table: keyed by id, listed once in `deviceOrder`, and the UAV and camera
      lists hold distinct devices of the right kind. */
  ghost predicate DevicesValid(net: Network) {
    && Distinct(net.deviceOrder)
    && (forall x :: x in net.devices <==> x in net.deviceOrder)
    && (forall x :: x in net.devices ==> net.devices[x].id == x)
    && Distinct(net.uavs) && Distinct(net.cams)
    && (forall x :: x in net.uavs ==> x in net.devices && net.devices[x].deviceType.UAV?)
    && (forall x :: x in net.cams ==> x in net.devices && net.devices[x].deviceType.CAM?)
  }

  /** The link arena: keyed by id, listed once in `linkOrder`. */
  ghost predicate LinksValid(net: Network) {
    && Distinct(net.linkOrder)
    && (forall k :: k in net.links <==> k in net.linkOrder)
    && (forall k :: k in net.links ==> net.links[k].id == k)
  }

  /** Every edge joins two vertices and carries a link of the arena. */
  ghost predicate EdgesValid(net: Network) {
    && (forall e :: e in net.edges ==> net.edges[e] in net.links)
    && (forall e :: e in net.edges ==> IsVertex(net, e.0) && IsVertex(net, e.1))
  }

  /** The invariant every reachable network state keeps. */
  ghost predicate Valid(net: Network) {
    NodesValid(net) && DevicesValid(net) && LinksValid(net) && EdgesValid(net)
  }

  /** Every vertex occurs in the vertex list. */
  lemma VertexListed(net: Network, v: Vertex)
    requires Valid(net) && IsVertex(net, v)
    ensures v in Vertices(net)
  {
    if v.NodeVertex? {
      var n :| n in net.nodes && n.id == v.nodeId;
      var j :| 0 <= j < |net.nodes| && net.nodes[j] == n;
      assert NodeVertex(net.nodes[j].id) in Vertices(net);
    }
  }

  /** No later entry uses the same pair of endpoints as entry `i`. */
  predicate IsLastFor(xs: seq<LinkEntry>, i: int)
    requires 0 <= i < |xs|
  {
    forall j :: i < j < |xs| ==> Endpoints(xs[j]) != Endpoints(xs[i])
  }

  /** The endpoints of the entries, in input order. */
  function EdgeList(xs: seq<LinkEntry>): (r: seq<Edge>)
    ensures |r| == |xs| && forall i :: 0 <= i < |xs| ==> r[i] == Endpoints(xs[i])
  {
    seq(|xs|, i requires 0 <= i < |xs| => Endpoints(xs[i]))
  }

  /** The edge map built by `add_edges_from`: adding an edge that already exists replaces
      its data, so the last entry for a pair of endpoints wins. */
  function EdgesOf(xs: seq<LinkEntry>): (m: map<Edge, int>)
    ensures forall e :: e in m <==> e in EdgeList(xs)
    decreases |xs|
  {
    if |xs| == 0 then map[]
    else
      var n := |xs| - 1;
      assert EdgeList(xs) == EdgeList(xs[..n]) + [Endpoints(xs[n])];
      EdgesOf(xs[..n])[Endpoints(xs[n]) := xs[n].link.id]
  }

  /** The edge of the last entry for a pair of endpoints carries that entry's link. */
  lemma {:induction false} EdgesOfLastWins(xs: seq<LinkEntry>, i: int)
    requires 0 <= i < |xs| && IsLastFor(xs, i)
    ensures Endpoints(xs[i]) in EdgesOf(xs) && EdgesOf(xs)[Endpoints(xs[i])] == xs[i].link.id
    decreases |xs|
  {
    var n := |xs| - 1;
    if i < n {
      assert xs[..n][i] == xs[i];
      assert IsLastFor(xs[..n], i) by {
        forall j | i < j < n ensures Endpoints(xs[..n][j]) != Endpoints(xs[..n][i]) {
          assert xs[..n][j] == xs[j];
        }
      }
      EdgesOfLastWins(xs[..n], i);
      assert Endpoints(xs[n]) != Endpoints(xs[i]);
    }
  }

  /** The link arena: each parsed link under its id. */
  function LinksOf(xs: seq<LinkEntry>): (m: map<int, Link>)
    ensures forall k :: k in m <==> k in LinkIds(xs)
    decreases |xs|
  {
    if |xs| == 0 then map[]
    else
      var n := |xs| - 1;
      assert LinkIds(xs) == LinkIds(xs[..n]) + [xs[n].link.id];
      LinksOf(xs[..n])[xs[n].link.id := xs[n].link]
  }

  /** With distinct link ids, every parsed link is stored under its own id. */
  lemma {:induction false} LinksOfStoresEach(xs: seq<LinkEntry>, i: int)
    requires DistinctBy(xs, (x: LinkEntry) => x.link.id)
    requires 0 <= i < |xs|
    ensures xs[i].link.id in LinksOf(xs) && LinksOf(xs)[xs[i].link.id] == xs[i].link
    decreases |xs|
  {
    var n := |xs| - 1;
    if i < n {
      assert xs[..n][i] == xs[i];
      assert DistinctBy(xs[..n], (x: LinkEntry) => x.link.id) by {
        forall a, b | 0 <= a < b < n ensures xs[..n][a].link.id != xs[..n][b].link.id {
          assert xs[..n][a] == xs[a] && xs[..n][b] == xs[b];
        }
      }
      LinksOfStoresEach(xs[..n], i);
    }
  }

  /** The link ids in input order. */
  function LinkIds(xs: seq<LinkEntry>): (r: seq<int>)
    ensures |r| == |xs| && forall i :: 0 <= i < |xs| ==> r[i] == xs[i].link.id
  {
    seq(|xs|, i requires 0 <= i < |xs| => xs[i].link.id)
  }

  /** The device table: each parsed device under its id. */
  function DevicesOf(ds: seq<Device>): (m: map<int, Device>)
    ensures forall x :: x in m <==> x in Ids(ds)
    decreases |ds|
  {
    if |ds| == 0 then map[]
    else
      var n := |ds| - 1;
      assert Ids(ds) == Ids(ds[..n]) + [ds[n].id];
      DevicesOf(ds[..n])[ds[n].id := ds[n]]
  }

  /** With distinct device ids, every parsed device is stored under its own id. */
  lemma {:induction false} DevicesOfStoresEach(ds: seq<Device>, i: int)
    requires DistinctBy(ds, (d: Device) => d.id)
    requires 0 <= i < |ds|
    ensures ds[i].id in DevicesOf(ds) && DevicesOf(ds)[ds[i].id] == ds[i]
    decreases |ds|
  {
    var n := |ds| - 1;
    if i < n {
      assert ds[..n][i] == ds[i];
      assert DistinctBy(ds[..n], (d: Device) => d.id) by {
        forall a, b | 0 <= a < b < n ensures ds[..n][a].id != ds[..n][b].id {
          assert ds[..n][a] == ds[a] && ds[..n][b] == ds[b];
        }
      }
      DevicesOfStoresEach(ds[..n], i);
      assert ds[i].id != ds[n].id;
      assert DevicesOf(ds) == DevicesOf(ds[..n])[ds[n].id := ds[n]];
    }
  }

  /** `v` names one of the parsed nodes or devices. */
  predicate InInput(nodes: seq<Node>, devs: seq<Device>, v: Vertex) {
    match v
    case NodeVertex(i) => exists n :: n in nodes && n.id == i
    case DeviceVertex(i) => exists d :: d in devs && d.id == i
  }

  /** The network built from the parsed nodes, devices and links (the body of the
      `Network` constructor). */
  function Build(nodes: seq<Node>, devs: seq<Device>, xs: seq<LinkEntry>): (net: Network)
  {
    Network(nodes, NodesOfType(nodes, GW), NodesOfType(nodes, SW), NodesOfType(nodes, AP),
            Ids(devs), DeviceIdsOfType(devs, UAV), DeviceIdsOfType(devs, CAM), DevicesOf(devs),
            LinkIds(xs), LinksOf(xs), EdgesOf(xs))
  }

  /** Construction from already-parsed input. Ids are unique (Python tells objects apart by
      identity), and every link endpoint is one of the parsed vertices (the parser looks
      each endpoint up among them). The result is a valid network whose vertex lists are
      the input filtered by kind, whose tables hold each parsed object under its id, and
      whose edges are the parsed endpoints, the last entry for a pair winning. */
  lemma BuildIsValid(nodes: seq<Node>, devs: seq<Device>, xs: seq<LinkEntry>)
    requires DistinctBy(nodes, (n: Node) => n.id)
    requires DistinctBy(devs, (d: Device) => d.id)
    requires DistinctBy(xs, (x: LinkEntry) => x.link.id)
    requires forall i :: 0 <= i < |xs| ==> InInput(nodes, devs, xs[i].src) && InInput(nodes, devs, xs[i].dst)
    ensures var net := Build(nodes, devs, xs);
      && Valid(net)
      && (forall n :: n in net.gateways <==> n in nodes && n.nodeType.GW?)
      && (forall n :: n in net.switches <==> n in nodes && n.nodeType.SW?)
      && (forall n :: n in net.accessPoints <==> n in nodes && n.nodeType.AP?)
      && (forall i :: 0 <= i < |devs| ==> net.devices[devs[i].id] == devs[i])
      && (forall i :: 0 <= i < |xs| ==> net.links[xs[i].link.id] == xs[i].link)
      && (forall i :: 0 <= i < |xs| && IsLastFor(xs, i) ==> net.edges[Endpoints(xs[i])] == xs[i].link.id)
  {
    var net := Build(nodes, devs, xs);
    BuildDevicesValid(nodes, devs, xs);
    BuildLinksValid(nodes, devs, xs);
    BuildEdgesValid(nodes, devs, xs);
    forall i | 0 <= i < |xs| && IsLastFor(xs, i) ensures net.edges[Endpoints(xs[i])] == xs[i].link.id {
      EdgesOfLastWins(xs, i);
    }
  }

  lemma BuildDevicesValid(nodes: seq<Node>, devs: seq<Device>, xs: seq<LinkEntry>)
    requires DistinctBy(devs, (d: Device) => d.id)
    ensures DevicesValid(Build(nodes, devs, xs))
    ensures forall i :: 0 <= i < |devs| ==> Build(nodes, devs, xs).devices[devs[i].id] == devs[i]
  {
    var net := Build(nodes, devs, xs);
    forall i | 0 <= i < |devs| ensures net.devices[devs[i].id] == devs[i] {
      DevicesOfStoresEach(devs, i);
    }
    IdsOfFilterDistinct(devs, (d: Device) => d.deviceType == UAV);
    IdsOfFilterDistinct(devs, (d: Device) => d.deviceType == CAM);
    assert Distinct(net.deviceOrder) by {
      forall i, j | 0 <= i < j < |devs| ensures net.deviceOrder[i] != net.deviceOrder[j] { }
    }
    forall x | x in net.uavs ensures x in net.devices && net.devices[x].deviceType.UAV? {
      var f := Filter(devs, (d: Device) => d.deviceType == UAV);
      var j :| 0 <= j < |f| && Ids(f)[j] == x;
      assert f[j] in devs;
      var i :| 0 <= i < |devs| && devs[i] == f[j];
    }
    forall x | x in net.cams ensures x in net.devices && net.devices[x].deviceType.CAM? {
      var f := Filter(devs, (d: Device) => d.deviceType == CAM);
      var j :| 0 <= j < |f| && Ids(f)[j] == x;
      assert f[j] in devs;
      var i :| 0 <= i < |devs| && devs[i] == f[j];
    }
    forall x | x in net.devices ensures net.devices[x].id == x {
      var i :| 0 <= i < |devs| && Ids(devs)[i] == x;
    }
  }

  lemma BuildLinksValid(nodes: seq<Node>, devs: seq<Device>, xs: seq<LinkEntry>)
    requires DistinctBy(xs, (x: LinkEntry) => x.link.id)
    ensures LinksValid(Build(nodes, devs, xs))
    ensures forall i :: 0 <= i < |xs| ==> Build(nodes, devs, xs).links[xs[i].link.id] == xs[i].link
  {
    var net := Build(nodes, devs, xs);
    forall i | 0 <= i < |xs| ensures net.links[xs[i].link.id] == xs[i].link {
      LinksOfStoresEach(xs, i);
    }
    assert Distinct(net.linkOrder) by {
      forall i, j | 0 <= i < j < |xs| ensures net.linkOrder[i] != net.linkOrder[j] { }
    }
    forall k | k in net.links ensures net.links[k].id == k {
      var i :| 0 <= i < |xs| && LinkIds(xs)[i] == k;
    }
  }

  lemma BuildEdgesValid(nodes: seq<Node>, devs: seq<Device>, xs: seq<LinkEntry>)
    requires forall i :: 0 <= i < |xs| ==> InInput(nodes, devs, xs[i].src) && InInput(nodes, devs, xs[i].dst)
    ensures EdgesValid(Build(nodes, devs, xs))
  {
    var net := Build(nodes, devs, xs);
    forall e | e in net.edges ensures net.edges[e] in net.links && IsVertex(net, e.0) && IsVertex(net, e.1) {
      var i :| 0 <= i < |xs| && EdgeList(xs)[i] == e;
      InputIsVertex(nodes, devs, net.devices, xs[i].src);
      InputIsVertex(nodes, devs, net.devices, xs[i].dst);
      EdgesOfValue(xs, e);
    }
  }

  /** Every edge carries one of the parsed links. */
  lemma {:induction false} EdgesOfValue(xs: seq<LinkEntry>, e: Edge)
    requires e in EdgesOf(xs)
    ensures EdgesOf(xs)[e] in LinkIds(xs)
    decreases |xs|
  {
    var n := |xs| - 1;
    assert LinkIds(xs) == LinkIds(xs[..n]) + [xs[n].link.id];
    if e != Endpoints(xs[n]) {
      EdgesOfValue(xs[..n], e);
    }
  }

  /** A parsed endpoint is a vertex of the built network. */
  lemma InputIsVertex(nodes: seq<Node>, devs: seq<Device>, devices: map<int, Device>, v: Vertex)
    requires forall x :: x in devices <==> x in Ids(devs)
    requires InInput(nodes, devs, v)
    ensures match v
      case NodeVertex(i) => exists n :: n in nodes && n.id == i
      case DeviceVertex(i) => i in devices
  {
    if v.DeviceVertex? {
      var d :| d in devs && d.id == v.deviceId;
      var i :| 0 <= i < |devs| && devs[i] == d;
      assert Ids(devs)[i] == d.id;
    }
  }

  /** The ids of a filtered list of devices with distinct ids are distinct. */
  lemma IdsOfFilterDistinct(devs: seq<Device>, p: Device -> bool)
    requires DistinctBy(devs, (d: Device) => d.id)
    ensures Distinct(Ids(Filter(devs, p)))
  {
    FilterKeepsDistinctBy(devs, p, (d: Device) => d.id);
  }

  /** Gateways, switches and access points partition the node list. */
  lemma {:induction false} NodeClassesPartition(ns: seq<Node>)
    ensures multiset(NodesOfType(ns, GW)) + multiset(NodesOfType(ns, SW)) + multiset(NodesOfType(ns, AP))
            == multiset(ns)
    ensures |NodesOfType(ns, GW)| + |NodesOfType(ns, SW)| + |NodesOfType(ns, AP)| == |ns|
    decreases |ns|
  {
    if |ns| > 0 {
      NodeClassesPartition(ns[1..]);
      assert ns == [ns[0]] + ns[1..];
      match ns[0].nodeType
      case GW =>
      case SW =>
      case AP =>
    }
  }

  /** UAVs and cameras partition the device list. */
  lemma DeviceClassesPartition(ds: seq<Device>)
    ensures multiset(Filter(ds, (d: Device) => d.deviceType == UAV))
            + multiset(Filter(ds, (d: Device) => d.deviceType == CAM)) == multiset(ds)
    ensures |DeviceIdsOfType(ds, UAV)| + |DeviceIdsOfType(ds, CAM)| == |ds|
  {
    forall d | d in ds ensures d.deviceType == CAM <==> !(d.deviceType == UAV) {
      match d.deviceType
      case UAV =>
      case CAM =>
    }
    FilterComplement(ds, (d: Device) => d.deviceType == UAV, (d: Device) => d.deviceType == CAM);
    var a := Filter(ds, (d: Device) => d.deviceType == UAV);
    var b := Filter(ds, (d: Device) => d.deviceType == CAM);
    assert |multiset(a)| + |multiset(b)| == |multiset(ds)|;
  }

  /** Replacing the state of links in the arena, without adding, dropping or renumbering
      any, keeps the network valid. */
  lemma LinkStatesKeepValid(net: Network, links: map<int, Link>)
    requires Valid(net)
    requires links.Keys == net.links.Keys
    requires forall k :: k in links ==> links[k].id == net.links[k].id
    ensures Valid(net.(links := links))
  {
    var net' := net.(links := links);
    assert NodesValid(net') by { assert net'.nodes == net.nodes; }
    assert DevicesValid(net') by { assert net'.devices == net.devices; }
    assert LinksValid(net') by {
      forall k | k in net'.links ensures net'.links[k].id == k {
        assert net.links[k].id == k;
      }
    }
    assert EdgesValid(net') by {
      forall e | e in net'.edges
        ensures net'.edges[e] in net'.links && IsVertex(net', e.0) && IsVertex(net', e.1)
      {
        assert net.edges[e] in net.links && IsVertex(net, e.0) && IsVertex(net, e.1);
      }
    }
  }
}
