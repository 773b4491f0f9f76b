/** The citizen portal page (web/src/pages/CitizenPortal.tsx): locating the
    pole next to the citizen, choosing a pole by hand or on the map, phone
    formatting and the submission of a report. React state is a value of
    `PortalState`; every handler is a function from the state before to the
    state after. */
module CitizenPortal {

  import opened Common
  import opened Text
  import opened Geo
  import opened Posts
  import opened Proximity

  const NEARBY_RADIUS_M: real := 100.0
  const EXPANDED_RADIUS_M: real := 300.0
  const AUTO_SELECT_RADIUS_M: real := 30.0

  /** Where the page centres the map when the position is unknown (Palmital, SP). */
  const FALLBACK_LOCATION: Point := Point(-22.786, -50.205)

  /** Map marker id of the citizen's own position. */
  const USER_MARKER_ID: string := "__user__"

  const PHONE_MAX_DIGITS: nat := 11
  const PHONE_MIN_DIGITS: nat := 10
  const PROTOCOL_PREFIX: string := "ZU-2026-"
  /** `Math.floor(Math.random() * 9999)` lies in [0, PROTOCOL_DRAWS). */
  const PROTOCOL_DRAWS: nat := 9999

  datatype PortalState = PortalState(
    userLocation: Option<Point>,
    nearest: Option<RealPost>,
    selected: Option<RealPost>,
    activeRadius: real)

  /** What the browser's geolocation gives: no API, a refusal or timeout,
      or a position. */
  datatype Geolocation = Unsupported | Denied | Position(at: Point)

  // ---------------------------------------------------------------------
  // Radius escalation and auto-selection.

  datatype Search = Search(nearby: seq<Candidate>, radius: real)

  /** Query at 100 m; when that finds nothing, query once more at 300 m. */
  function EscalatedSearch(posts: seq<RealPost>, ds: seq<Measure>): (r: Search)
    requires |ds| == |posts|
    ensures r.radius == NEARBY_RADIUS_M || r.radius == EXPANDED_RADIUS_M
    ensures r.radius == EXPANDED_RADIUS_M <==> forall j :: 0 <= j < |ds| ==> !AtMost(ds[j], NEARBY_RADIUS_M)
    ensures r.nearby == Nearby(posts, ds, r.radius)
  {
    var near := Nearby(posts, ds, NEARBY_RADIUS_M);
    NearbyEmpty(posts, ds, NEARBY_RADIUS_M);
    if |near| == 0 then Search(Nearby(posts, ds, EXPANDED_RADIUS_M), EXPANDED_RADIUS_M)
    else Search(near, NEARBY_RADIUS_M)
  }

  /** `nearby.filter(n => n.distance <= AUTO_SELECT_RADIUS_M)`. */
  function VeryClose(nearby: seq<Candidate>): seq<Candidate>
  {
    WithinRadius(nearby, AUTO_SELECT_RADIUS_M)
  }

  /** The page picks a pole without asking exactly when a single pole of
      the whole inventory lies within 30 m; the pole it picks is then the
      nearest one. */
  lemma AutoSelectIffSingle(posts: seq<RealPost>, ds: seq<Measure>)
    requires |ds| == |posts|
    ensures var close := VeryClose(EscalatedSearch(posts, ds).nearby);
      && (|close| == 1 <==> CountWithin(ds, AUTO_SELECT_RADIUS_M, 0) == 1)
      && (|close| == 1 ==> NearestIndex(ds) == Some(close[0].index)
                           && close[0].post == posts[close[0].index])
  {
    var search := EscalatedSearch(posts, ds);
    NearbyNarrow(posts, ds, AUTO_SELECT_RADIUS_M, search.radius);
    NearbySingle(posts, ds, AUTO_SELECT_RADIUS_M);
  }

  /** `getLocation`, run once the pole list is loaded. */
  function GetLocation(st: PortalState, geo: Geolocation, posts: seq<RealPost>, dist: DistanceFn): (r: PortalState)
    ensures r.userLocation == Some(if geo.Position? then geo.at else FALLBACK_LOCATION)
    ensures geo.Unsupported? || |posts| == 0 ==> r == st.(userLocation := r.userLocation)
    ensures geo.Denied? && |posts| > 0 ==>
      && r.selected == r.nearest == FindNearest(posts, DistancesFrom(FALLBACK_LOCATION, posts, dist))
      && r == st.(userLocation := r.userLocation, nearest := r.nearest, selected := r.selected)
    ensures geo.Position? && |posts| > 0 ==>
      var ds := DistancesFrom(geo.at, posts, dist);
      && r.nearest == FindNearest(posts, ds)
      && r.selected == (if r.nearest.Some? then r.nearest else st.selected)
      && (r.activeRadius == EXPANDED_RADIUS_M <==> forall j :: 0 <= j < |posts| ==> !AtMost(ds[j], NEARBY_RADIUS_M))
      && (r.activeRadius == NEARBY_RADIUS_M || r.activeRadius == EXPANDED_RADIUS_M)
      && r == st.(userLocation := r.userLocation, nearest := r.nearest, selected := r.selected,
                  activeRadius := r.activeRadius)
  {
    match geo
    case Unsupported =>
      st.(userLocation := Some(FALLBACK_LOCATION))
    case Denied =>
      var located := st.(userLocation := Some(FALLBACK_LOCATION));
      if |posts| == 0 then located
      else
        var nearest := FindNearest(posts, DistancesFrom(FALLBACK_LOCATION, posts, dist));
        located.(nearest := nearest, selected := nearest)
    case Position(loc) =>
      var located := st.(userLocation := Some(loc));
      if |posts| == 0 then located
      else
        var ds := DistancesFrom(loc, posts, dist);
        var nearest := FindNearest(posts, ds);
        var search := EscalatedSearch(posts, ds);
        var close := VeryClose(search.nearby);
        AutoSelectIffSingle(posts, ds);
        var selected :=
          if |close| == 1 then Some(close[0].post)
          else if nearest.Some? then nearest
          else st.selected;
        located.(nearest := nearest, activeRadius := search.radius, selected := selected)
  }

  /** With real coordinates and haversine distances a position always ends
      with a pole selected, the nearest one. */
  lemma LocateSelectsNearest(st: PortalState, loc: Point, posts: seq<RealPost>, dist: DistanceFn)
    requires HaversineLike(dist) && |posts| > 0
    ensures var r := GetLocation(st, Position(loc), posts, dist);
      r.selected.Some? && r.selected == FindNearest(posts, DistancesFrom(loc, posts, dist))
  {
    NearestExists(loc, posts, dist);
  }

  // ---------------------------------------------------------------------
  // Choosing a pole by hand.

  /** `handleManualSelect`: the first pole whose id equals the trimmed input;
      an unknown id leaves the selection alone. */
  function ManualSelect(st: PortalState, posts: seq<RealPost>, manualId: string): (r: PortalState)
    ensures r.selected.Some? && r != st ==> r.selected.value in posts
    ensures (forall i :: 0 <= i < |posts| ==> posts[i].idPoste != Trim(manualId)) ==> r == st
    ensures (exists i :: 0 <= i < |posts| && posts[i].idPoste == Trim(manualId)) ==>
      r == st.(selected := r.selected) && r.selected.Some? && r.selected.value.idPoste == Trim(manualId)
      && exists k :: 0 <= k < |posts| && posts[k] == r.selected.value
                     && forall i :: 0 <= i < k ==> posts[i].idPoste != Trim(manualId)
  {
    var id := Trim(manualId);
    match Find(posts, (p: RealPost) => p.idPoste == id)
    case None => st
    case Some(p) => st.(selected := Some(p))
  }

  /** The map's `onMarkerClick`: the citizen's own marker does nothing,
      a pole marker selects the first pole with that id. */
  function MarkerClick(st: PortalState, posts: seq<RealPost>, markerId: string): (r: PortalState)
    ensures markerId == USER_MARKER_ID ==> r == st
    ensures r != st ==> r == st.(selected := r.selected) && r.selected.Some?
                        && r.selected.value in posts && r.selected.value.idPoste == markerId
    ensures markerId != USER_MARKER_ID && (forall i :: 0 <= i < |posts| ==> posts[i].idPoste != markerId)
            ==> r == st
    ensures markerId != USER_MARKER_ID && (exists i :: 0 <= i < |posts| && posts[i].idPoste == markerId) ==>
      r == st.(selected := r.selected) && r.selected.Some? && r.selected.value.idPoste == markerId
      && exists k :: 0 <= k < |posts| && posts[k] == r.selected.value
                     && forall i :: 0 <= i < k ==> posts[i].idPoste != markerId
  {
    if markerId == USER_MARKER_ID then st
    else
      match Find(posts, (p: RealPost) => p.idPoste == markerId)
      case None => st
      case Some(p) => st.(selected := Some(p))
  }

  /** Clicking a pole's marker selects what typing its id by hand selects. */
  lemma MarkerClickAsManualSelect(st: PortalState, posts: seq<RealPost>, markerId: string)
    requires markerId != USER_MARKER_ID && Trim(markerId) == markerId
    ensures MarkerClick(st, posts, markerId) == ManualSelect(st, posts, markerId)
  {
    var a, b := MarkerClick(st, posts, markerId), ManualSelect(st, posts, markerId);
    if exists i :: 0 <= i < |posts| && posts[i].idPoste == markerId {
      var ka :| 0 <= ka < |posts| && posts[ka] == a.selected.value
                && forall i :: 0 <= i < ka ==> posts[i].idPoste != markerId;
      var kb :| 0 <= kb < |posts| && posts[kb] == b.selected.value
                && forall i :: 0 <= i < kb ==> posts[i].idPoste != markerId;
      assert !(ka < kb) && !(kb < ka);
    }
  }

  // ---------------------------------------------------------------------
  // Phone number and submission.

  /** `formatPhone`: at most 11 digits, shown as `dd`, `(dd) ddddd` or
      `(dd) ddddd-dddd`. */
  function FormatPhone(value: string): (r: string)
    ensures Digits(r) == Take(Digits(value), PHONE_MAX_DIGITS)
    ensures |Digits(value)| <= 2 ==> r == Digits(value)
    ensures var d := Take(Digits(value), PHONE_MAX_DIGITS);
      2 < |d| <= 7 ==>
        && |r| == |d| + 3 && r[0] == '(' && r[1..3] == d[..2] && r[3..5] == ") " && r[5..] == d[2..]
    ensures var d := Take(Digits(value), PHONE_MAX_DIGITS);
      7 < |d| ==>
        && |r| == |d| + 4 && r[0] == '(' && r[1..3] == d[..2] && r[3..5] == ") "
        && r[5..10] == d[2..7] && r[10] == '-' && r[11..] == d[7..]
  {
    var d := Take(Digits(value), PHONE_MAX_DIGITS);
    if |d| <= 2 then d
    else if |d| <= 7 then
      ShortPhoneDigits(d);
      "(" + (d[..2] + (") " + d[2..]))
    else
      LongPhoneDigits(d);
      "(" + (d[..2] + (") " + (d[2..7] + ("-" + d[7..]))))
  }

  /** Where the pieces of `(dd) ddddd` sit; the separators carry no digit. */
  lemma ShortPhoneDigits(d: string)
    requires 2 < |d| && AllDigits(d)
    ensures var r := "(" + (d[..2] + (") " + d[2..]));
      && Digits(r) == d
      && |r| == |d| + 3 && r[0] == '(' && r[1..3] == d[..2] && r[3..5] == ") " && r[5..] == d[2..]
  {
    ShortPieces(d[..2], d[2..]);
    assert d == d[..2] + d[2..];
  }

  lemma ShortPieces(a: string, b: string)
    requires AllDigits(a) && AllDigits(b)
    ensures Digits("(" + (a + (") " + b))) == a + b
  {
    var t1 := ") " + b;
    assert Digits(t1) == b by { SeparatorDigits(); DigitsAppend(") ", b); }
    var t2 := a + t1;
    assert Digits(t2) == a + b by { DigitsAppend(a, t1); }
    assert Digits("(" + t2) == a + b by { SeparatorDigits(); DigitsAppend("(", t2); }
  }

  /** Where the pieces of `(dd) ddddd-dddd` sit; the separators carry no
      digit. */
  lemma LongPhoneDigits(d: string)
    requires 7 < |d| && AllDigits(d)
    ensures var r := "(" + (d[..2] + (") " + (d[2..7] + ("-" + d[7..]))));
      && Digits(r) == d
      && |r| == |d| + 4 && r[0] == '(' && r[1..3] == d[..2] && r[3..5] == ") "
      && r[5..10] == d[2..7] && r[10] == '-' && r[11..] == d[7..]
  {
    var a, b, c := d[..2], d[2..7], d[7..];
    PhonePieces(a, b, c);
    assert d == a + (b + c);
  }

  lemma PhonePieces(a: string, b: string, c: string)
    requires AllDigits(a) && AllDigits(b) && AllDigits(c)
    ensures Digits("(" + (a + (") " + (b + ("-" + c))))) == a + (b + c)
  {
    var t1 := "-" + c;
    assert Digits(t1) == c by { SeparatorDigits(); DigitsAppend("-", c); }
    var t2 := b + t1;
    assert Digits(t2) == b + c by { DigitsAppend(b, t1); }
    var t3 := ") " + t2;
    assert Digits(t3) == b + c by { SeparatorDigits(); DigitsAppend(") ", t2); }
    var t4 := a + t3;
    assert Digits(t4) == a + (b + c) by { DigitsAppend(a, t3); }
    assert Digits("(" + t4) == a + (b + c) by { SeparatorDigits(); DigitsAppend("(", t4); }
  }

  /** The phone mask's separators carry no digit. */
  lemma SeparatorDigits()
    ensures Digits("(") == "" && Digits(") ") == "" && Digits("-") == ""
  {
    assert !IsDigit('(') && !IsDigit(')') && !IsDigit(' ') && !IsDigit('-');
  }

  /** Formatting an already formatted number changes nothing, so the input
      box is stable under repeated `onChange`. */
  lemma FormatPhoneIdempotent(value: string)
    ensures FormatPhone(FormatPhone(value)) == FormatPhone(value)
  {
    var d := Take(Digits(value), PHONE_MAX_DIGITS);
    assert Digits(FormatPhone(value)) == d;
    assert Take(d, PHONE_MAX_DIGITS) == d;
  }

  datatype SubmitOutcome = NoPoleSelected | InvalidPhone | Registered(protocol: string)

  /** `handleSubmit`: a pole must be selected and the phone must have at
      least 10 digits; the protocol is `ZU-2026-` and the random draw
      zero-padded to four digits. `draw` stands for
      `Math.floor(Math.random() * 9999)`. */
  function Submit(selected: Option<RealPost>, phone: string, draw: nat): (r: SubmitOutcome)
    requires draw < PROTOCOL_DRAWS
    ensures r.NoPoleSelected? <==> selected.None?
    ensures r.InvalidPhone? <==> selected.Some? && |Digits(phone)| < PHONE_MIN_DIGITS
    ensures r.Registered? ==>
      && |r.protocol| == |PROTOCOL_PREFIX| + 4
      && r.protocol[..|PROTOCOL_PREFIX|] == PROTOCOL_PREFIX
      && AllDigits(r.protocol[|PROTOCOL_PREFIX|..])
      && DecimalValue(r.protocol[|PROTOCOL_PREFIX|..]) == draw
  {
    if selected.None? then NoPoleSelected
    else if |Digits(phone)| < PHONE_MIN_DIGITS then InvalidPhone
    else
      var number := ToDecimal(draw);
      ToDecimalLength(draw, 4);
      var padded := PadStart(number, 4, '0');
      var k: nat :| padded == Repeat('0', k) + number;
      LeadingZeros(k, number);
      var protocol := PROTOCOL_PREFIX + padded;
      assert protocol[|PROTOCOL_PREFIX|..] == padded;
      Registered(protocol)
  }

  /** Different draws give different protocols. */
  lemma ProtocolInjective(selected: Option<RealPost>, phone: string, d1: nat, d2: nat)
    requires d1 < PROTOCOL_DRAWS && d2 < PROTOCOL_DRAWS && d1 != d2
    requires Submit(selected, phone, d1).Registered?
    ensures Submit(selected, phone, d1) != Submit(selected, phone, d2)
  {
  }
}
