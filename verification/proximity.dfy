/** The pole proximity resolution of the citizen portal: `findNearest` and
    `getNearbyPosts` of web/src/pages/CitizenPortal.tsx, over the distances
    `ds[i]` from the user's position to pole `i`. */
module Proximity {

  import opened Common
  import opened Sorting
  import opened Geo
  import opened Posts

  /** `getNearbyPosts` keeps at most this many poles. */
  const MAX_NEARBY: nat := 10

  /** The distance from `origin` to every pole, in list order. */
  function DistancesFrom(origin: Point, posts: seq<RealPost>, dist: DistanceFn): (ds: seq<Measure>)
    ensures |ds| == |posts|
    ensures forall i :: 0 <= i < |posts| ==> ds[i] == dist(origin, posts[i].Location())
  {
    seq(|posts|, i requires 0 <= i < |posts| => dist(origin, posts[i].Location()))
  }

  /** `findNearest`: the pole with the least distance, the first one on a tie;
      `null` when the list is empty or every distance is NaN. */
  function FindNearest(posts: seq<RealPost>, ds: seq<Measure>): (r: Option<RealPost>)
    requires |ds| == |posts|
    ensures |posts| == 0 ==> r.None?
    ensures r.None? <==> AllNaN(ds)
    ensures r.Some? ==> exists k :: IsFirstNearest(ds, k) && posts[k] == r.value
  {
    match NearestIndex(ds)
    case None => None
    case Some(k) => Some(posts[k])
  }

  /** With haversine-like distances every pole has a distance, so a
      non-empty list always has a nearest pole. */
  lemma NearestExists(origin: Point, posts: seq<RealPost>, dist: DistanceFn)
    requires HaversineLike(dist) && |posts| > 0
    ensures FindNearest(posts, DistancesFrom(origin, posts, dist)).Some?
  {
    var ds := DistancesFrom(origin, posts, dist);
    assert ds[0].Finite?;
  }

  /** An element `{ post, distance }` of `getNearbyPosts`'s result. `index`
      is the pole's position in the input list; the page never reads it,
      it only names which pole the element came from. */
  datatype Candidate = Candidate(post: RealPost, distance: real, index: nat)

  /** Every candidate is pole `index` of the list at its finite distance. */
  ghost predicate Tagged(posts: seq<RealPost>, ds: seq<Measure>, cs: seq<Candidate>)
  {
    forall k :: 0 <= k < |cs| ==>
      cs[k].index < |posts| && cs[k].index < |ds|
      && posts[cs[k].index] == cs[k].post && ds[cs[k].index] == Finite(cs[k].distance)
  }

  ghost predicate IncreasingIndex(cs: seq<Candidate>)
  {
    forall i, j :: 0 <= i < j < |cs| ==> cs[i].index < cs[j].index
  }

  ghost predicate HasIndex(cs: seq<Candidate>, j: int)
  {
    exists k :: 0 <= k < |cs| && cs[k].index == j
  }

  /** `map` to `{ post, distance }` then `filter(distance <= radius)`, from
      position `i` on: a NaN distance never passes. */
  function InRadius(posts: seq<RealPost>, ds: seq<Measure>, radius: real, i: nat): (r: seq<Candidate>)
    requires |ds| == |posts| && i <= |posts|
    ensures InRadiusFrom(posts, ds, radius, i, r)
  {
    InRadiusListFrom(posts, ds, radius, i);
    InRadiusList(posts, ds, radius, i)
  }

  /** The `map`/`filter` pipeline, pole by pole. */
  function InRadiusList(posts: seq<RealPost>, ds: seq<Measure>, radius: real, i: nat): seq<Candidate>
    requires |ds| == |posts| && i <= |posts|
    decreases |posts| - i
  {
    if i == |posts| then []
    else if AtMost(ds[i], radius) then [Candidate(posts[i], ds[i].meters, i)] + InRadiusList(posts, ds, radius, i + 1)
    else InRadiusList(posts, ds, radius, i + 1)
  }

  lemma {:induction false} InRadiusListFrom(posts: seq<RealPost>, ds: seq<Measure>, radius: real, i: nat)
    requires |ds| == |posts| && i <= |posts|
    ensures InRadiusFrom(posts, ds, radius, i, InRadiusList(posts, ds, radius, i))
    decreases |posts| - i
  {
    if i < |posts| {
      InRadiusListFrom(posts, ds, radius, i + 1);
      if AtMost(ds[i], radius) {
        InRadiusCons(posts, ds, radius, i, InRadiusList(posts, ds, radius, i + 1));
      }
    }
  }

  /** `r` lists poles of position `i` or later, each at its finite distance
      within the radius, in list order, and misses none of them. */
  ghost predicate InRadiusFrom(posts: seq<RealPost>, ds: seq<Measure>, radius: real, i: nat, r: seq<Candidate>)
    requires |ds| == |posts|
  {
    && Tagged(posts, ds, r) && IncreasingIndex(r)
    && (forall k :: 0 <= k < |r| ==> i <= r[k].index && r[k].distance <= radius)
    && (forall j :: i <= j < |posts| && AtMost(ds[j], radius) ==> HasIndex(r, j))
  }

  /** Pole `i`, when within the radius, goes in front of the later ones. */
  lemma InRadiusCons(posts: seq<RealPost>, ds: seq<Measure>, radius: real, i: nat, rest: seq<Candidate>)
    requires |ds| == |posts| && i < |posts| && AtMost(ds[i], radius)
    requires InRadiusFrom(posts, ds, radius, i + 1, rest)
    ensures InRadiusFrom(posts, ds, radius, i, [Candidate(posts[i], ds[i].meters, i)] + rest)
  {
    var r := [Candidate(posts[i], ds[i].meters, i)] + rest;
    forall j | i <= j < |posts| && AtMost(ds[j], radius)
      ensures HasIndex(r, j)
    {
      if j == i {
        assert r[0].index == i;
      } else {
        var k :| 0 <= k < |rest| && rest[k].index == j;
        assert r[k + 1].index == j;
      }
    }
  }

  /** The comparator `(a, b) => a.distance - b.distance`, as "not positive". */
  predicate ByDistance(a: Candidate, b: Candidate)
  {
    a.distance <= b.distance
  }

  lemma ByDistanceTotal()
    ensures TotalPreorder(ByDistance)
  {
  }

  /** `getNearbyPosts`: the poles within `radius`, sorted by distance
      (stably), at most ten of them. */
  function Nearby(posts: seq<RealPost>, ds: seq<Measure>, radius: real): (r: seq<Candidate>)
    requires |ds| == |posts|
    ensures |r| <= MAX_NEARBY
    ensures Tagged(posts, ds, r)
    ensures forall k :: 0 <= k < |r| ==> r[k].distance <= radius
    ensures SortedBy(r, ByDistance)
  {
    var all := InRadius(posts, ds, radius, 0);
    var sorted := SortBy(all, ByDistance);
    ByDistanceTotal();
    SortedKeepsElements(all, sorted);
    Take(sorted, MAX_NEARBY)
  }

  /** Elements of a permutation are elements of the original. */
  lemma SortedKeepsElements(all: seq<Candidate>, sorted: seq<Candidate>)
    requires multiset(sorted) == multiset(all)
    ensures forall k :: 0 <= k < |sorted| ==> sorted[k] in all
  {
    forall k | 0 <= k < |sorted|
      ensures sorted[k] in all
    {
      assert sorted[k] in multiset(sorted);
    }
  }

  // ---------------------------------------------------------------------
  // Stability: on equal distances the sort keeps the input order.

  /** `a` comes before `b` in the stable order: nearer, or as near and
      earlier in the input. */
  predicate LexBefore(a: Candidate, b: Candidate)
  {
    a.distance < b.distance || (a.distance == b.distance && a.index < b.index)
  }

  ghost predicate LexSorted(cs: seq<Candidate>)
  {
    forall i, j :: 0 <= i < j < |cs| ==> LexBefore(cs[i], cs[j])
  }

  lemma {:induction false} InsertLex(x: Candidate, s: seq<Candidate>)
    requires LexSorted(s)
    requires forall k :: 0 <= k < |s| ==> x.index < s[k].index
    ensures LexSorted(Insert(x, s, ByDistance))
    decreases |s|
  {
    if |s| > 0 && !ByDistance(x, s[0]) {
      var rest := Insert(x, s[1..], ByDistance);
      InsertLex(x, s[1..]);
      forall j | 0 <= j < |rest|
        ensures LexBefore(s[0], rest[j])
      {
        assert rest[j] in multiset(rest);
        if rest[j] != x {
          assert rest[j] in multiset(s[1..]);
          var k :| 0 <= k < |s[1..]| && s[1..][k] == rest[j];
          assert s[k + 1] == rest[j];
        }
      }
    }
  }

  /** Sorting candidates listed in input order yields the stable order. */
  lemma {:induction false} SortIsStable(cs: seq<Candidate>)
    requires IncreasingIndex(cs)
    ensures LexSorted(SortBy(cs, ByDistance))
    decreases |cs|
  {
    if |cs| > 0 {
      var rest := SortBy(cs[1..], ByDistance);
      SortIsStable(cs[1..]);
      forall k | 0 <= k < |rest|
        ensures cs[0].index < rest[k].index
      {
        assert rest[k] in multiset(rest);
        assert rest[k] in multiset(cs[1..]);
        var m :| 0 <= m < |cs[1..]| && cs[1..][m] == rest[k];
        assert cs[m + 1] == rest[k];
      }
      InsertLex(cs[0], rest);
    }
  }

  // ---------------------------------------------------------------------
  // Radius monotonicity: a smaller radius gives a prefix.

  /** `filter(n => n.distance <= radius)` over candidates. */
  function WithinRadius(cs: seq<Candidate>, radius: real): (r: seq<Candidate>)
    ensures |r| <= |cs|
    ensures forall k :: 0 <= k < |r| ==> r[k].distance <= radius
  {
    if |cs| == 0 then []
    else if cs[0].distance <= radius then [cs[0]] + WithinRadius(cs[1..], radius)
    else WithinRadius(cs[1..], radius)
  }

  /** The filter keeps exactly the candidates within the radius. */
  lemma {:induction false} WithinMembers(cs: seq<Candidate>, radius: real)
    ensures forall x :: x in WithinRadius(cs, radius) <==> x in cs && x.distance <= radius
    decreases |cs|
  {
    if |cs| > 0 {
      WithinMembers(cs[1..], radius);
      assert cs == [cs[0]] + cs[1..];
    }
  }

  lemma InRadiusNarrow(posts: seq<RealPost>, ds: seq<Measure>, r1: real, r2: real, i: nat)
    requires |ds| == |posts| && i <= |posts| && r1 <= r2
    ensures InRadius(posts, ds, r1, i) == WithinRadius(InRadius(posts, ds, r2, i), r1)
  {
    InRadiusListNarrow(posts, ds, r1, r2, i);
  }

  /** Narrowing, stated on the pipeline itself. */
  lemma {:induction false} InRadiusListNarrow(posts: seq<RealPost>, ds: seq<Measure>, r1: real, r2: real, i: nat)
    requires |ds| == |posts| && i <= |posts| && r1 <= r2
    ensures InRadiusList(posts, ds, r1, i) == WithinRadius(InRadiusList(posts, ds, r2, i), r1)
    decreases |posts| - i
  {
    if i < |posts| {
      InRadiusListNarrow(posts, ds, r1, r2, i + 1);
      var c := Candidate(posts[i], if ds[i].Finite? then ds[i].meters else 0.0, i);
      NarrowLink(InRadiusList(posts, ds, r1, i), InRadiusList(posts, ds, r2, i),
                 c, InRadiusList(posts, ds, r1, i + 1), InRadiusList(posts, ds, r2, i + 1),
                 AtMost(ds[i], r1), AtMost(ds[i], r2), r1);
    }
  }

  /** The two results from pole `i` on: pole `i` is dropped by both radii,
      or kept by the larger one and then decided by the narrower filter. */
  lemma NarrowLink(x1: seq<Candidate>, x2: seq<Candidate>, c: Candidate, a1: seq<Candidate>, a2: seq<Candidate>,
                   in1: bool, in2: bool, r1: real)
    requires x1 == (if in1 then [c] else []) + a1
    requires x2 == (if in2 then [c] else []) + a2
    requires a1 == WithinRadius(a2, r1)
    requires in1 ==> in2
    requires in2 ==> (in1 <==> c.distance <= r1)
    ensures x1 == WithinRadius(x2, r1)
  {
    if in2 {
      NarrowStep(c, a1, a2, in1, r1);
    } else {
      assert x1 == a1 && x2 == a2;
    }
  }

  /** The step of `InRadiusNarrow`: a candidate within the larger radius
      survives the narrower filter exactly when it is within the smaller one. */
  lemma NarrowStep(c: Candidate, a1: seq<Candidate>, a2: seq<Candidate>, in1: bool, r1: real)
    requires a1 == WithinRadius(a2, r1) && (in1 <==> c.distance <= r1)
    ensures (if in1 then [c] else []) + a1 == WithinRadius([c] + a2, r1)
  {
    WithinCons(c, a2, r1);
  }

  /** One step of the `map`/`filter`: pole `i` goes in front when within the radius. */
  lemma InRadiusStep(posts: seq<RealPost>, ds: seq<Measure>, radius: real, i: nat)
    requires |ds| == |posts| && i < |posts|
    ensures InRadius(posts, ds, radius, i)
         == (if AtMost(ds[i], radius) then [Candidate(posts[i], ds[i].meters, i)] else [])
            + InRadius(posts, ds, radius, i + 1)
  {
  }

  /** Filtering a list with a first element decides that element alone. */
  lemma WithinCons(c: Candidate, rest: seq<Candidate>, radius: real)
    ensures WithinRadius([c] + rest, radius)
         == (if c.distance <= radius then [c] else []) + WithinRadius(rest, radius)
  {
    assert ([c] + rest)[1..] == rest;
  }

  /** Filtering commutes with inserting into a sorted list. */
  lemma {:induction false} WithinInsert(x: Candidate, t: seq<Candidate>, radius: real)
    requires SortedBy(t, ByDistance)
    ensures WithinRadius(Insert(x, t, ByDistance), radius)
         == if x.distance <= radius then Insert(x, WithinRadius(t, radius), ByDistance)
            else WithinRadius(t, radius)
    decreases |t|
  {
    if |t| == 0 {
    } else if ByDistance(x, t[0]) {
      assert Insert(x, t, ByDistance) == [x] + t;
      assert ([x] + t)[1..] == t;
      var w := WithinRadius(t, radius);
      if |w| > 0 {
        WithinMembers(t, radius);
        assert w[0] in t;
      }
    } else {
      WithinInsert(x, t[1..], radius);
      var ins := Insert(x, t[1..], ByDistance);
      assert Insert(x, t, ByDistance) == [t[0]] + ins;
      assert ([t[0]] + ins)[1..] == ins;
    }
  }

  /** Filtering by distance commutes with the sort. */
  lemma {:induction false} WithinSort(cs: seq<Candidate>, radius: real)
    ensures WithinRadius(SortBy(cs, ByDistance), radius) == SortBy(WithinRadius(cs, radius), ByDistance)
    decreases |cs|
  {
    if |cs| > 0 {
      ByDistanceTotal();
      var rest := SortBy(cs[1..], ByDistance);
      WithinSort(cs[1..], radius);
      WithinInsert(cs[0], rest, radius);
      if cs[0].distance <= radius {
        var w := WithinRadius(cs, radius);
        assert w[1..] == WithinRadius(cs[1..], radius);
      }
    }
  }

  /** On a list sorted by distance the elements within a radius form a prefix. */
  lemma {:induction false} WithinSortedIsPrefix(s: seq<Candidate>, radius: real)
    requires SortedBy(s, ByDistance)
    ensures WithinRadius(s, radius) <= s
    decreases |s|
  {
    if |s| > 0 {
      if s[0].distance <= radius {
        WithinSortedIsPrefix(s[1..], radius);
      } else {
        SortedBeyond(s, radius);
      }
    }
  }

  lemma TakeMonotonic(a: seq<Candidate>, b: seq<Candidate>, n: nat)
    requires a <= b
    ensures Take(a, n) <= Take(b, n)
  {
  }

  /** Widening the radius only appends poles: the result at the smaller
      radius is a prefix of the result at the larger one. */
  lemma NearbyPrefix(posts: seq<RealPost>, ds: seq<Measure>, r1: real, r2: real)
    requires |ds| == |posts| && r1 <= r2
    ensures Nearby(posts, ds, r1) <= Nearby(posts, ds, r2)
  {
    var all2 := InRadius(posts, ds, r2, 0);
    var sorted2 := SortBy(all2, ByDistance);
    InRadiusNarrow(posts, ds, r1, r2, 0);
    WithinSort(all2, r1);
    ByDistanceTotal();
    WithinSortedIsPrefix(sorted2, r1);
    TakeMonotonic(SortBy(InRadius(posts, ds, r1, 0), ByDistance), sorted2, MAX_NEARBY);
  }

  // ---------------------------------------------------------------------
  // Which poles make it into the result.

  /** `getNearbyPosts` returns nothing exactly when no pole lies within the radius. */
  lemma NearbyEmpty(posts: seq<RealPost>, ds: seq<Measure>, radius: real)
    requires |ds| == |posts|
    ensures |Nearby(posts, ds, radius)| == 0 <==> forall j :: 0 <= j < |ds| ==> !AtMost(ds[j], radius)
  {
    var all := InRadius(posts, ds, radius, 0);
    if |all| > 0 {
      assert AtMost(ds[all[0].index], radius);
    }
  }

  /** A pole within the radius is left out only when ten poles precede it in
      the stable order. */
  lemma NearbyComplete(posts: seq<RealPost>, ds: seq<Measure>, radius: real, j: nat)
    requires |ds| == |posts| && j < |posts| && AtMost(ds[j], radius)
    ensures var n := Nearby(posts, ds, radius);
      var c := Candidate(posts[j], ds[j].meters, j);
      c in n || (|n| == MAX_NEARBY && forall k :: 0 <= k < |n| ==> LexBefore(n[k], c))
  {
    var all := InRadius(posts, ds, radius, 0);
    var sorted := SortBy(all, ByDistance);
    var c := Candidate(posts[j], ds[j].meters, j);
    assert HasIndex(all, j);
    var m :| 0 <= m < |all| && all[m].index == j;
    assert all[m] == c;
    assert c in multiset(sorted);
    var p :| 0 <= p < |sorted| && sorted[p] == c;
    SortIsStable(all);
    var n := Nearby(posts, ds, radius);
    if p < MAX_NEARBY {
      assert n[p] == c;
    }
  }

  /** On ties the nearer-first order keeps list order. */
  lemma NearbyStable(posts: seq<RealPost>, ds: seq<Measure>, radius: real)
    requires |ds| == |posts|
    ensures LexSorted(Nearby(posts, ds, radius))
  {
    SortIsStable(InRadius(posts, ds, radius, 0));
  }

  // ---------------------------------------------------------------------
  // Counting and narrowing.

  /** How many poles from position `i` on lie within `radius`. */
  function CountWithin(ds: seq<Measure>, radius: real, i: nat): nat
    requires i <= |ds|
    decreases |ds| - i
  {
    if i == |ds| then 0
    else (if AtMost(ds[i], radius) then 1 else 0) + CountWithin(ds, radius, i + 1)
  }

  lemma {:induction false} InRadiusCount(posts: seq<RealPost>, ds: seq<Measure>, radius: real, i: nat)
    requires |ds| == |posts| && i <= |posts|
    ensures |InRadius(posts, ds, radius, i)| == CountWithin(ds, radius, i)
    decreases |posts| - i
  {
    if i < |posts| {
      InRadiusCount(posts, ds, radius, i + 1);
    }
  }

  lemma {:induction false} WithinNone(s: seq<Candidate>, radius: real)
    requires forall k :: 0 <= k < |s| ==> s[k].distance > radius
    ensures WithinRadius(s, radius) == []
    decreases |s|
  {
    if |s| > 0 {
      WithinNone(s[1..], radius);
    }
  }

  /** A sorted list whose first element is out of range has nothing in range. */
  lemma SortedBeyond(s: seq<Candidate>, radius: real)
    requires SortedBy(s, ByDistance) && |s| > 0 && s[0].distance > radius
    ensures WithinRadius(s, radius) == []
  {
    forall k | 0 <= k < |s|
      ensures s[k].distance > radius
    {
      if k > 0 {
        assert ByDistance(s[0], s[k]);
      }
    }
    WithinNone(s, radius);
  }

  /** On a sorted list, cutting at `n` and filtering commute. */
  lemma {:induction false} WithinTake(s: seq<Candidate>, n: nat, radius: real)
    requires SortedBy(s, ByDistance)
    ensures WithinRadius(Take(s, n), radius) == Take(WithinRadius(s, radius), n)
    decreases n
  {
    if n > 0 && |s| > 0 {
      var t := Take(s, n);
      if s[0].distance <= radius {
        assert SortedBy(s[1..], ByDistance) by {
          forall i, j | 0 <= i < j < |s[1..]|
            ensures ByDistance(s[1..][i], s[1..][j])
          {
            assert ByDistance(s[i + 1], s[j + 1]);
          }
        }
        WithinTake(s[1..], n - 1, radius);
        assert t == [s[0]] + Take(s[1..], n - 1);
        assert t[1..] == Take(s[1..], n - 1);
      } else {
        SortedBeyond(s, radius);
        SortedBeyond(t, radius);
      }
    }
  }

  /** Filtering the nearby poles by a smaller radius gives the nearby poles
      at that radius; in particular the page's `veryClose` list is
      `getNearbyPosts` at 30 m. */
  lemma NearbyNarrow(posts: seq<RealPost>, ds: seq<Measure>, r0: real, radius: real)
    requires |ds| == |posts| && r0 <= radius
    ensures WithinRadius(Nearby(posts, ds, radius), r0) == Nearby(posts, ds, r0)
  {
    var all := InRadius(posts, ds, radius, 0);
    var sorted := SortBy(all, ByDistance);
    ByDistanceTotal();
    WithinTake(sorted, MAX_NEARBY, r0);
    WithinSort(all, r0);
    InRadiusNarrow(posts, ds, r0, radius, 0);
  }

  /** Only one pole lies within `r0` exactly when `getNearbyPosts` at `r0`
      returns one element, and that element is the nearest pole. */
  lemma NearbySingle(posts: seq<RealPost>, ds: seq<Measure>, r0: real)
    requires |ds| == |posts|
    ensures |Nearby(posts, ds, r0)| == 1 <==> CountWithin(ds, r0, 0) == 1
    ensures |Nearby(posts, ds, r0)| == 1 ==>
      var c := Nearby(posts, ds, r0)[0];
      NearestIndex(ds) == Some(c.index) && c.post == posts[c.index]
  {
    var all := InRadius(posts, ds, r0, 0);
    InRadiusCount(posts, ds, r0, 0);
    var n := Nearby(posts, ds, r0);
    if |all| == 1 {
      var c := all[0];
      assert SortBy(all, ByDistance) == Insert(c, SortBy([], ByDistance), ByDistance);
      assert n == [c];
      forall j | 0 <= j < |ds| && ds[j].Finite?
        ensures ds[c.index].meters <= ds[j].meters
        ensures j < c.index ==> ds[c.index].meters < ds[j].meters
      {
        if AtMost(ds[j], r0) {
          assert HasIndex(all, j);
        }
      }
      assert IsFirstNearest(ds, c.index);
      var k := NearestIndex(ds);
      FirstNearestUnique(ds, k.value, c.index);
    }
  }
}
