/** Points, the great-circle distance between them, and the nearest-point
    scan shared by the citizen portal (`findNearest`) and the mock data
    (`findNearestPost`).

    The haversine formula itself (radius 6371000 m) is not modelled: a
    distance is any function of two points whose value is a finite number of
    meters or NaN, which is what a JavaScript number computed from
    coordinates that are not numbers becomes. `HaversineLike` states what the
    formula satisfies mathematically; only lemmas assume it. */
module Geo {

  import opened Common

  datatype Point = Point(lat: real, lng: real)

  /** A JavaScript distance value: NaN compares false with everything. */
  datatype Measure = NaN | Finite(meters: real)

  type DistanceFn = (Point, Point) -> Measure

  /** Properties of the haversine distance on real coordinates: defined,
      non-negative, zero from a point to itself, symmetric. */
  ghost predicate HaversineLike(dist: DistanceFn)
  {
    && (forall a, b :: dist(a, b).Finite? && dist(a, b).meters >= 0.0)
    && (forall a :: dist(a, a) == Finite(0.0))
    && (forall a, b :: dist(a, b) == dist(b, a))
  }

  /** `d <= r` on a JavaScript number: false for NaN. */
  predicate AtMost(d: Measure, r: real)
  {
    d.Finite? && d.meters <= r
  }

  /** `k` is the position of the nearest finite distance, the earliest one
      on ties. */
  ghost predicate IsFirstNearest(ds: seq<Measure>, k: int)
  {
    && 0 <= k < |ds| && ds[k].Finite?
    && (forall j :: 0 <= j < |ds| && ds[j].Finite? ==> ds[k].meters <= ds[j].meters)
    && (forall j :: 0 <= j < k && ds[j].Finite? ==> ds[k].meters < ds[j].meters)
  }

  ghost predicate AllNaN(ds: seq<Measure>)
  {
    forall j :: 0 <= j < |ds| ==> ds[j].NaN?
  }

  /** The first-nearest position, when there is one, is unique. */
  lemma FirstNearestUnique(ds: seq<Measure>, k1: int, k2: int)
    requires IsFirstNearest(ds, k1) && IsFirstNearest(ds, k2)
    ensures k1 == k2
  {
  }

  /** The loop `for (p of list) if (d < minDist) { minDist = d; nearest = p }`
      starting from `minDist = Infinity`, over the distances of the list's
      elements: the position it ends with. */
  function NearestIndex(ds: seq<Measure>): (r: Option<nat>)
    ensures r.None? <==> AllNaN(ds)
    ensures r.Some? ==> IsFirstNearest(ds, r.value)
  {
    ScanFrom(ds, 0, None)
  }

  /** `d < minDist`: a NaN distance never replaces the current best, and any
      finite one replaces `Infinity`. */
  predicate Improves(d: Measure, ds: seq<Measure>, best: Option<nat>)
    requires best.Some? ==> best.value < |ds| && ds[best.value].Finite?
  {
    d.Finite? && (best.None? || d.meters < ds[best.value].meters)
  }

  /** The loop from position `i` on; `best` is the position of `minDist`,
      `None` while it is still `Infinity`. */
  function ScanFrom(ds: seq<Measure>, i: nat, best: Option<nat>): (r: Option<nat>)
    requires i <= |ds|
    requires best.None? <==> AllNaN(ds[..i])
    requires best.Some? ==> IsFirstNearest(ds[..i], best.value)
    ensures r.None? <==> AllNaN(ds)
    ensures r.Some? ==> IsFirstNearest(ds, r.value)
    decreases |ds| - i
  {
    if i == |ds| then
      assert ds[..i] == ds;
      best
    else
      assert ds[..i + 1] == ds[..i] + [ds[i]];
      if Improves(ds[i], ds, best) then ScanFrom(ds, i + 1, Some(i))
      else ScanFrom(ds, i + 1, best)
  }

  /** A point at distance zero is as near as anything gets, so under the
      haversine properties the nearest element of a list that contains the
      origin itself lies at distance zero. */
  lemma NearestOfOrigin(dist: DistanceFn, origin: Point, locs: seq<Point>, k: nat)
    requires HaversineLike(dist)
    requires k < |locs| && locs[k] == origin
    ensures var ds := seq(|locs|, i requires 0 <= i < |locs| => dist(origin, locs[i]));
      var r := NearestIndex(ds);
      r.Some? && r.value <= k && ds[r.value] == Finite(0.0)
  {
    var ds := seq(|locs|, i requires 0 <= i < |locs| => dist(origin, locs[i]));
    assert ds[k] == Finite(0.0);
    var r := NearestIndex(ds);
    assert !AllNaN(ds);
    assert ds[r.value].meters <= 0.0;
  }
}
