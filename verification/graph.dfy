/** The directed graph underneath the network: vertices, edges, walks and the unweighted
    hop distance that `networkx.shortest_path_length` computes. */
module Graph {
  import opened Wrappers

  /** A vertex is either an infrastructure node or a device. The tag is what
      `isinstance(u, NetworkDevice)` tests. */
  datatype Vertex = NodeVertex(nodeId: int) | DeviceVertex(deviceId: int)

  type Edge = (Vertex, Vertex)

  /** An edge with a device at either end (an access link). */
  predicate TouchesDevice(e: Edge) {
    e.0.DeviceVertex? || e.1.DeviceVertex?
  }

  /** `p` is a non-empty walk along the edges `es`. */
  predicate IsWalk(es: set<Edge>, p: seq<Vertex>) {
    |p| >= 1 && forall i :: 0 <= i < |p| - 1 ==> (p[i], p[i + 1]) in es
  }

  /** `b` can be reached from `a` in at most `k` hops. */
  predicate ReachWithin(es: set<Edge>, a: Vertex, b: Vertex, k: nat)
    decreases k
  {
    a == b || (k > 0 && exists e :: e in es && e.0 == a && ReachWithin(es, e.1, b, k - 1))
  }

  /** The first hop count from `k` up to `|es|` within which `b` is reachable from `a`. */
  function SearchFrom(es: set<Edge>, a: Vertex, b: Vertex, k: nat): (r: Option<nat>)
    requires k <= |es|
    ensures r.Some? ==> k <= r.value <= |es| && ReachWithin(es, a, b, r.value)
    ensures r.Some? ==> forall j: nat :: k <= j < r.value ==> !ReachWithin(es, a, b, j)
    ensures r.None? ==> forall j: nat :: k <= j <= |es| ==> !ReachWithin(es, a, b, j)
    decreases |es| - k
  {
    if ReachWithin(es, a, b, k) then Some(k)
    else if k == |es| then None
    else SearchFrom(es, a, b, k + 1)
  }

  /** The unweighted hop distance from `a` to `b`, or None when `b` is unreachable. A
      shortest walk never repeats an edge, so `|es|` hops bound the search. */
  function HopDistance(es: set<Edge>, a: Vertex, b: Vertex): (r: Option<nat>)
    ensures r.Some? ==> r.value <= |es| && ReachWithin(es, a, b, r.value)
    ensures r.Some? ==> forall j: nat :: j < r.value ==> !ReachWithin(es, a, b, j)
    ensures r.None? ==> forall j: nat :: j <= |es| ==> !ReachWithin(es, a, b, j)
  {
    SearchFrom(es, a, b, 0)
  }

  /** Whenever `b` is reachable within a bound the search covers, the hop distance is
      defined and no larger than that bound. */
  lemma DistanceAtMost(es: set<Edge>, a: Vertex, b: Vertex, k: nat)
    requires k <= |es| && ReachWithin(es, a, b, k)
    ensures HopDistance(es, a, b).Some? && HopDistance(es, a, b).value <= k
  {
  }

  /** A walk from `a` to `b` with `n` hops reaches `b` within `n` hops. */
  lemma {:induction false} WalkReaches(es: set<Edge>, p: seq<Vertex>)
    requires IsWalk(es, p)
    ensures ReachWithin(es, p[0], p[|p| - 1], |p| - 1)
    decreases |p|
  {
    if |p| > 1 {
      assert IsWalk(es, p[1..]) by {
        forall i | 0 <= i < |p[1..]| - 1 ensures (p[1..][i], p[1..][i + 1]) in es {
          assert (p[i + 1], p[i + 2]) in es;
        }
      }
      WalkReaches(es, p[1..]);
      var e := (p[0], p[1]);
      assert e in es && e.0 == p[0] && ReachWithin(es, e.1, p[|p| - 1], |p| - 2);
    }
  }

  /** Any walk of at most `|es|` hops bounds the hop distance between its ends: the distance
      is defined and no larger than the walk's hop count. In particular the route a weighted
      search returns is never shorter in hops than the hop distance. */
  lemma WalkBoundsDistance(es: set<Edge>, p: seq<Vertex>)
    requires IsWalk(es, p) && |p| - 1 <= |es|
    ensures HopDistance(es, p[0], p[|p| - 1]).Some?
    ensures HopDistance(es, p[0], p[|p| - 1]).value <= |p| - 1
  {
    WalkReaches(es, p);
    DistanceAtMost(es, p[0], p[|p| - 1], |p| - 1);
  }

  /** A vertex at distance `k > 0` has an out-neighbour at distance exactly `k - 1`: hop
      distance always offers a step that makes progress. */
  lemma NeighbourOneCloser(es: set<Edge>, v: Vertex, g: Vertex)
    requires HopDistance(es, v, g).Some? && HopDistance(es, v, g).value > 0
    ensures exists w :: (v, w) in es && HopDistance(es, w, g) == Some(HopDistance(es, v, g).value - 1)
  {
    var k := HopDistance(es, v, g).value;
    assert !ReachWithin(es, v, g, 0);
    var e :| e in es && e.0 == v && ReachWithin(es, e.1, g, k - 1);
    var w := e.1;
    DistanceAtMost(es, w, g, k - 1);
    var m := HopDistance(es, w, g).value;
    if m < k - 1 {
      assert ReachWithin(es, v, g, m + 1) by {
        assert e in es && e.0 == v && ReachWithin(es, e.1, g, m);
      }
      assert false;
    }
    assert (v, w) == e;
  }
}
