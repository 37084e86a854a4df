/**
 * The remapping to legacy integer stop ids and the result hash, and the
 * whole build (load, grid, arrivals, remap, result) as one function of
 * the stop time rows, the stop metadata rows and the current time.
 */
module Assembly {
  import opened Common
  import opened Text
  import opened TimeFormat
  import opened Schedule
  import opened Grid
  import opened Arrivals

  /** to_int_key: a stop's legacy integer id. */
  function ToIntKey(stops: map<StopId, StopInfo>, id: StopId): nat
    requires id in stops
  {
    stops[id].stopIntegerId
  }

  /** The integer id as the string key the result uses. */
  function IntKeyString(stops: map<StopId, StopInfo>, id: StopId): string
    requires id in stops
  {
    NatToString(ToIntKey(stops, id))
  }

  /** The key string is all digits and reads back as the stop's integer id; stops with different integer ids get different keys. */
  lemma IntKeyStringReadsBack(stops: map<StopId, StopInfo>, a: StopId, b: StopId)
    requires a in stops && b in stops
    ensures AllDigits(IntKeyString(stops, a)) && ParseNat(IntKeyString(stops, a)) == stops[a].stopIntegerId
    ensures IntKeyString(stops, a) == IntKeyString(stops, b) <==> stops[a].stopIntegerId == stops[b].stopIntegerId
  {
    ParseNatToString(ToIntKey(stops, a));
    NatToStringInjective(ToIntKey(stops, a), ToIntKey(stops, b));
  }

  /** On the loaded records, to_int_key gives the stop_integer_id of the stop's last metadata row. */
  lemma IntKeyFromMetadata(meta: seq<StopMeta>, id: StopId) returns (i: nat)
    requires id in MetaMap(meta)
    ensures i < |meta| && meta[i].stopId == id && ToIntKey(MetaMap(meta), id) == meta[i].stopIntegerId
    ensures forall j :: i < j < |meta| ==> meta[j].stopId != id
  {
    i := MetaMapFromLastRow(meta, id);
  }

  predicate RowsKnown(g: NativeGrid, stops: map<StopId, StopInfo>) {
    forall i :: 0 <= i < |g| ==> g[i].stopId in stops
  }

  predicate AllKnown(ids: seq<StopId>, stops: map<StopId, StopInfo>) {
    forall i :: 0 <= i < |ids| ==> ids[i] in stops
  }

  /** Distinct stops carry distinct integer ids. */
  predicate IntegerIdsInjective(stops: map<StopId, StopInfo>) {
    forall a, b :: a in stops && b in stops && a != b ==> stops[a].stopIntegerId != stops[b].stopIntegerId
  }

  /** fix_grid_stop_ids: each row keeps its place, name and slots, and its stop id becomes the stop's integer id. */
  function WithIntegerIds(g: NativeGrid, stops: map<StopId, StopInfo>): (r: seq<GridRow<nat>>)
    requires RowsKnown(g, stops)
    ensures |r| == |g|
    ensures forall i :: 0 <= i < |g| ==>
      r[i].stopId == stops[g[i].stopId].stopIntegerId && r[i].name == g[i].name && r[i].times == g[i].times
  {
    seq(|g|, i requires 0 <= i < |g| => GridRow(ToIntKey(stops, g[i].stopId), g[i].name, g[i].times))
  }

  /**
   * The remapped grid keeps its shape, and its rows stay one per stop as
   * long as no two stops share an integer id.
   */
  lemma IntegerIdsKeepShape(g: NativeGrid, stops: map<StopId, StopInfo>, width: nat)
    requires RowsKnown(g, stops) && WellFormed(g, width)
    ensures Rectangular(WithIntegerIds(g, stops), width)
    ensures IntegerIdsInjective(stops) ==> DistinctStops(WithIntegerIds(g, stops))
    ensures OrderedStopIds(WithIntegerIds(g, stops)) ==
      seq(|g|, i requires 0 <= i < |g| => stops[OrderedStopIds(g)[i]].stopIntegerId)
  {
  }

  /** imminent_stop_ids: the stop of each imminent entry, in the imminent map's key order. */
  function ImminentStopIds(order: seq<TripId>, imminent: map<TripId, Imminent>): (r: seq<StopId>)
    requires forall i :: 0 <= i < |order| ==> order[i] in imminent
    ensures |r| == |order| && forall i :: 0 <= i < |order| ==> r[i] == imminent[order[i]].stopId
  {
    seq(|order|, i requires 0 <= i < |order| => imminent[order[i]].stopId)
  }

  function IntKeyStrings(ids: seq<StopId>, stops: map<StopId, StopInfo>): (r: seq<string>)
    requires AllKnown(ids, stops)
    ensures |r| == |ids| && forall i :: 0 <= i < |ids| ==> r[i] == IntKeyString(stops, ids[i])
  {
    seq(|ids|, i requires 0 <= i < |ids| => IntKeyString(stops, ids[i]))
  }

  /**
   * The result's imminent_stop_ids: each stop's integer id as a string,
   * without repetitions, each at its first occurrence.
   */
  function ImminentKeys(ids: seq<StopId>, stops: map<StopId, StopInfo>): (r: seq<string>)
    requires AllKnown(ids, stops)
    ensures Distinct(r) && |r| <= |ids|
    ensures forall i :: 0 <= i < |ids| ==> IntKeyString(stops, ids[i]) in r
  {
    DedupDistinct(IntKeyStrings(ids, stops));
    Dedup(IntKeyStrings(ids, stops))
  }

  /** imminent_stop_ids in the result is duplicate free, names the key of every imminent stop and nothing else, in first-seen order. */
  lemma ImminentKeysFirstSeen(ids: seq<StopId>, stops: map<StopId, StopInfo>)
    requires AllKnown(ids, stops)
    ensures var r := ImminentKeys(ids, stops);
      && Distinct(r)
      && (forall i :: 0 <= i < |ids| ==> IntKeyString(stops, ids[i]) in r)
      && (forall j :: 0 <= j < |r| ==> exists i :: 0 <= i < |ids| && r[j] == IntKeyString(stops, ids[i]))
      && forall j, k :: 0 <= j < k < |r| ==>
           FirstIndex(IntKeyStrings(ids, stops), r[j]) < FirstIndex(IntKeyStrings(ids, stops), r[k])
  {
    var keys := IntKeyStrings(ids, stops);
    DedupInFirstSeenOrder(keys);
    var r := ImminentKeys(ids, stops);
    forall j | 0 <= j < |r| ensures exists i :: 0 <= i < |ids| && r[j] == IntKeyString(stops, ids[i]) {
      var i := FirstIndex(keys, r[j]);
      assert r[j] == IntKeyString(stops, ids[i]);
    }
  }

  /**
   * use_int_keys: the stop records re-keyed by integer id string, walking
   * the stops in key order; a later stop with the same key replaces an
   * earlier one.
   */
  function IntKeyed(order: seq<StopId>, stops: map<StopId, StopInfo>): (r: map<string, StopInfo>)
    requires AllKnown(order, stops)
    ensures forall i :: 0 <= i < |order| ==> IntKeyString(stops, order[i]) in r
    ensures forall key :: key in r ==> exists i :: 0 <= i < |order| && IntKeyString(stops, order[i]) == key
  {
    if order == [] then map[]
    else
      var p, id := order[..|order| - 1], order[|order| - 1];
      assert forall i :: 0 <= i < |p| ==> p[i] == order[i];
      IntKeyed(p, stops)[IntKeyString(stops, id) := stops[id]]
  }

  /** The key order of use_int_keys' hash: the integer id strings in first-seen order. */
  function IntKeyOrder(order: seq<StopId>, stops: map<StopId, StopInfo>): (r: seq<string>)
    requires AllKnown(order, stops)
    ensures Distinct(r)
    ensures forall key :: key in r <==> key in IntKeyed(order, stops)
  {
    DedupDistinct(IntKeyStrings(order, stops));
    IntKeyedKeys(order, stops);
    Dedup(IntKeyStrings(order, stops))
  }

  /** The keys of the re-keyed hash are the integer id strings of the stops. */
  lemma IntKeyedKeys(order: seq<StopId>, stops: map<StopId, StopInfo>)
    requires AllKnown(order, stops)
    ensures forall key :: key in IntKeyStrings(order, stops) <==> key in IntKeyed(order, stops)
  {
    var keys := IntKeyStrings(order, stops);
    forall key | key in IntKeyed(order, stops) ensures key in keys {
      var i :| 0 <= i < |order| && IntKeyString(stops, order[i]) == key;
      assert keys[i] == key;
    }
  }

  /** Each key of the re-keyed hash holds the record of the last stop in key order with that integer id. */
  lemma {:induction false} IntKeyedLastWins(order: seq<StopId>, stops: map<StopId, StopInfo>, j: nat)
    requires AllKnown(order, stops) && j < |order|
    requires forall k :: j < k < |order| ==> IntKeyString(stops, order[k]) != IntKeyString(stops, order[j])
    ensures IntKeyed(order, stops)[IntKeyString(stops, order[j])] == stops[order[j]]
  {
    var p := order[..|order| - 1];
    if j < |order| - 1 {
      assert forall i :: 0 <= i < |p| ==> p[i] == order[i];
      IntKeyedLastWins(p, stops, j);
    }
  }

  /** With distinct stops in key order and distinct integer ids, every stop's record survives the re-keying. */
  lemma IntKeyedKeepsAll(order: seq<StopId>, stops: map<StopId, StopInfo>)
    requires AllKnown(order, stops) && Distinct(order) && IntegerIdsInjective(stops)
    ensures forall j :: 0 <= j < |order| ==> IntKeyed(order, stops)[IntKeyString(stops, order[j])] == stops[order[j]]
  {
    forall j | 0 <= j < |order|
      ensures IntKeyed(order, stops)[IntKeyString(stops, order[j])] == stops[order[j]]
    {
      forall k | j < k < |order| ensures IntKeyString(stops, order[k]) != IntKeyString(stops, order[j]) {
        NatToStringInjective(ToIntKey(stops, order[k]), ToIntKey(stops, order[j]));
      }
      IntKeyedLastWins(order, stops, j);
    }
  }

  /** The result's message. */
  datatype Message = Message(title: string, body: string)

  /** The alert added to the result when no trip has an upcoming arrival. */
  function NoMoreTrips(imminent: map<TripId, Imminent>): (r: Option<Message>)
    ensures r.Some? <==> imminent == map[]
    ensures r.Some? ==> r.value == Message("Alert", "No more trips for the day")
  {
    if imminent == map[] then Some(Message("Alert", "No more trips for the day")) else None
  }

  /** The result hash, without its region. */
  datatype TimetableResult = TimetableResult(
    stops: map<string, StopInfo>,
    stopKeys: seq<string>,
    firstStop: seq<string>,
    imminentStopIds: seq<string>,
    orderedStopIds: seq<nat>,
    grid: seq<GridRow<nat>>,
    message: Option<Message>)

  datatype LoadError = NoRouteData

  // ---------------------------------------------------------------------
  // The whole build as a function of its inputs

  /** Every row has a well-formed time and a metadata row for its stop. */
  predicate Loadable(rows: seq<Stopping>, meta: seq<StopMeta>) {
    Supported(rows, MetaMap(meta))
  }

  /** The trips as make_grid walks them: in first-seen order, each sorted by stop_sequence. */
  function TripsOf(rows: seq<Stopping>): (ts: seq<seq<Stopping>>)
    ensures |ts| == |TripOrder(rows)|
  {
    SortedGroups(TripOrder(rows), Groups(rows))
  }

  /** The state right after loading: the stop records from the metadata, no arrivals, no imminent entries. */
  function Loaded(meta: seq<StopMeta>): (t: Tracker)
    ensures Initial(t) && OrderMatches(t) && KnownStops(t)
  {
    Tracker(MetaMap(meta), [], map[])
  }

  /** The keys of @stops in insertion order: stops of the rows first, then any others of the metadata. */
  function StopOrder(rows: seq<Stopping>, meta: seq<StopMeta>): (r: seq<StopId>)
    ensures Distinct(r)
    ensures forall id :: id in r <==> id in RowStopIds(rows) || id in MetaStopIds(meta)
  {
    DedupDistinct(RowStopIds(rows) + MetaStopIds(meta));
    Dedup(RowStopIds(rows) + MetaStopIds(meta))
  }

  /** The trips hold the rows and nothing else. */
  lemma TripsHoldRows(rows: seq<Stopping>)
    ensures forall k, i :: 0 <= k < |TripsOf(rows)| && 0 <= i < |TripsOf(rows)[k]| ==> TripsOf(rows)[k][i] in rows
    ensures forall i :: 0 <= i < |rows| ==> rows[i] in Flatten(TripsOf(rows))
  {
    var ts := TripsOf(rows);
    var order := TripOrder(rows);
    forall k, i | 0 <= k < |ts| && 0 <= i < |ts[k]| ensures ts[k][i] in rows {
      SortBySequenceSorts(RowsOfTrip(rows, order[k]));
      assert ts[k][i] in multiset(RowsOfTrip(rows, order[k]));
    }
    forall i | 0 <= i < |rows| ensures rows[i] in Flatten(ts) {
      var t := rows[i].tripId;
      assert TripIds(rows)[i] == t;
      var k := FirstIndex(order, t);
      GroupsCoverRows(rows, t);
      SortBySequenceSorts(RowsOfTrip(rows, t));
      assert rows[i] in multiset(ts[k]);
      FlattenHolds(ts, k, rows[i]);
    }
  }

  /** Every stopping of every trip is reported. */
  lemma {:induction false} FlattenHolds(ts: seq<seq<Stopping>>, k: nat, s: Stopping)
    requires k < |ts| && s in ts[k]
    ensures s in Flatten(ts)
  {
    if k < |ts| - 1 {
      FlattenHolds(ts[..|ts| - 1], k, s);
    }
  }

  /** Every reported stopping is a stopping of some trip. */
  lemma {:induction false} FlattenFrom(ts: seq<seq<Stopping>>, s: Stopping)
    requires s in Flatten(ts)
    ensures exists k, i :: 0 <= k < |ts| && 0 <= i < |ts[k]| && ts[k][i] == s
  {
    var p := ts[..|ts| - 1];
    if s !in ts[|ts| - 1] {
      FlattenFrom(p, s);
      var k, i :| 0 <= k < |p| && 0 <= i < |p[k]| && p[k][i] == s;
      assert ts[k] == p[k];
    }
  }

  /** The trips are supported by any stop records that support the rows. */
  lemma TripsSupported(rows: seq<Stopping>, stops: map<StopId, StopInfo>)
    requires Supported(rows, stops)
    ensures AllTripsValid(TripsOf(rows))
    ensures forall k :: 0 <= k < |TripsOf(rows)| ==> Supported(TripsOf(rows)[k], stops)
    ensures Supported(Flatten(TripsOf(rows)), stops)
  {
    TripsHoldRows(rows);
    var ts := TripsOf(rows);
    forall k | 0 <= k < |ts| ensures Supported(ts[k], stops) && AllValid(ts[k]) {
      forall i | 0 <= i < |ts[k]| ensures ValidStopping(ts[k][i]) && ts[k][i].stopId in stops {
        var j :| 0 <= j < |rows| && rows[j] == ts[k][i];
      }
    }
    FlattenSupported(ts, stops);
  }

  /** Every stop some trip visits has a record. */
  lemma {:induction false} VisitedKnown(ts: seq<seq<Stopping>>, k: nat, stops: map<StopId, StopInfo>)
    requires k <= |ts| && forall j :: 0 <= j < |ts| ==> Supported(ts[j], stops)
    ensures forall id :: id in StopIdsFrom(ts, k) ==> id in stops
    decreases |ts| - k
  {
    if k < |ts| {
      VisitedKnown(ts, k + 1, stops);
    }
  }

  /** The grid's stops are exactly the stops of the rows. */
  lemma GridStopsAreRowStops(rows: seq<Stopping>)
    ensures StopIdsFrom(TripsOf(rows), 0) == StopIds(rows)
  {
    var ts := TripsOf(rows);
    TripsHoldRows(rows);
    forall id | id in StopIdsFrom(ts, 0) ensures id in StopIds(rows) {
      VisitedIsRowStop(rows, id);
    }
    forall id | id in StopIds(rows) ensures id in StopIdsFrom(ts, 0) {
      RowStopIsVisited(rows, id);
    }
  }

  lemma VisitedIsRowStop(rows: seq<Stopping>, id: StopId)
    requires id in StopIdsFrom(TripsOf(rows), 0)
    ensures id in StopIds(rows)
  {
    var ts := TripsOf(rows);
    TripsHoldRows(rows);
    var k := StopIdsFromIndex(ts, 0, id);
    var i :| 0 <= i < |ts[k]| && ts[k][i].stopId == id;
    assert ts[k][i] in rows;
    var j :| 0 <= j < |rows| && rows[j] == ts[k][i];
  }

  lemma RowStopIsVisited(rows: seq<Stopping>, id: StopId)
    requires id in StopIds(rows)
    ensures id in StopIdsFrom(TripsOf(rows), 0)
  {
    var ts := TripsOf(rows);
    TripsHoldRows(rows);
    var j :| 0 <= j < |rows| && rows[j].stopId == id;
    FlattenFrom(ts, rows[j]);
    var k, i :| 0 <= k < |ts| && 0 <= i < |ts[k]| && ts[k][i] == rows[j];
    StopIdsFromHas(ts, 0, k, id);
  }

  lemma {:induction false} StopIdsFromIndex(ts: seq<seq<Stopping>>, k: nat, id: StopId) returns (j: nat)
    requires id in StopIdsFrom(ts, k)
    ensures k <= j < |ts| && id in StopIds(ts[j])
    decreases |ts| - k
  {
    if id in StopIds(ts[k]) {
      j := k;
    } else {
      j := StopIdsFromIndex(ts, k + 1, id);
    }
  }

  lemma {:induction false} StopIdsFromHas(ts: seq<seq<Stopping>>, k: nat, j: nat, id: StopId)
    requires k <= j < |ts| && id in StopIds(ts[j])
    ensures id in StopIdsFrom(ts, k)
    decreases j - k
  {
    if k < j {
      StopIdsFromHas(ts, k + 1, j, id);
    }
  }

  /** Every key of @stops has a record once the metadata is loaded. */
  lemma StopOrderKnown(rows: seq<Stopping>, meta: seq<StopMeta>)
    requires Loadable(rows, meta)
    ensures AllKnown(StopOrder(rows, meta), MetaMap(meta))
  {
    var order := StopOrder(rows, meta);
    forall i | 0 <= i < |order| ensures order[i] in MetaMap(meta) {
      var x := order[i];
      assert x in RowStopIds(rows) + MetaStopIds(meta);
      if x in RowStopIds(rows) {
        var j :| 0 <= j < |rows| && RowStopIds(rows)[j] == x;
      } else {
        var j :| 0 <= j < |meta| && MetaStopIds(meta)[j] == x;
      }
    }
  }

  /** make_grid's grid for the rows: one slot per trip in each row, one row per stop of the rows. */
  function GridOf(rows: seq<Stopping>, meta: seq<StopMeta>, nowHour: nat, nowMin: nat): (g: NativeGrid)
    requires Loadable(rows, meta)
    ensures WellFormed(g, |TripOrder(rows)|)
    ensures RowIds(g) == StopIds(rows)
    ensures RowsKnown(g, MetaMap(meta))
  {
    var ts := TripsOf(rows);
    TripsSupported(rows, MetaMap(meta));
    GridStopsAreRowStops(rows);
    VisitedKnown(ts, 0, MetaMap(meta));
    BuildGrid(ts, nowHour, nowMin)
  }

  /** The stop records and the imminent map after make_grid's calls of add_next_arrival. */
  function ArrivalsOf(rows: seq<Stopping>, meta: seq<StopMeta>, nowHour: nat, nowMin: nat): (t: Tracker)
    requires Loadable(rows, meta)
    ensures t.stops.Keys == MetaMap(meta).Keys
    ensures OrderMatches(t) && KnownStops(t)
  {
    TripsSupported(rows, MetaMap(meta));
    ReplayKeepsOrder(Loaded(meta), Flatten(TripsOf(rows)), nowHour, nowMin);
    Replay(Loaded(meta), Flatten(TripsOf(rows)), nowHour, nowMin)
  }

  /** After the build every grid row's stop and every key of the stop order still has a record. */
  lemma KnownAfterBuild(rows: seq<Stopping>, meta: seq<StopMeta>, nowHour: nat, nowMin: nat)
    requires Loadable(rows, meta)
    ensures RowsKnown(GridOf(rows, meta, nowHour, nowMin), ArrivalsOf(rows, meta, nowHour, nowMin).stops)
    ensures AllKnown(StopOrder(rows, meta), ArrivalsOf(rows, meta, nowHour, nowMin).stops)
  {
    StopOrderKnown(rows, meta);
  }

  /** The pieces the whole build is made of, for a non-empty set of rows. */
  lemma TimetableParts(rows: seq<Stopping>, meta: seq<StopMeta>, nowHour: nat, nowMin: nat)
    requires Loadable(rows, meta) && rows != []
    ensures AllTripsValid(TripsOf(rows)) && Supported(Flatten(TripsOf(rows)), MetaMap(meta))
    ensures GridOf(rows, meta, nowHour, nowMin) == BuildGrid(TripsOf(rows), nowHour, nowMin)
    ensures ArrivalsOf(rows, meta, nowHour, nowMin) == Replay(Loaded(meta), Flatten(TripsOf(rows)), nowHour, nowMin)
  {
    TripsSupported(rows, MetaMap(meta));
  }

  /** For a non-empty set of rows the result is the assembly of the grid, the arrival state, the stop order and the first stops. */
  lemma TimetableAssembled(rows: seq<Stopping>, meta: seq<StopMeta>, nowHour: nat, nowMin: nat)
    requires Loadable(rows, meta) && rows != []
    ensures AllKnown(StopOrder(rows, meta), MetaMap(meta))
    ensures Timetable(rows, meta, nowHour, nowMin) ==
      Ok(Assemble(GridOf(rows, meta, nowHour, nowMin), ArrivalsOf(rows, meta, nowHour, nowMin),
                  StopOrder(rows, meta), Dedup(FirstNames(TripsOf(rows)))))
  {
    StopOrderKnown(rows, meta);
  }

  /** result: the hash assembled from the remapped grid, the stop records, the first stops and the imminent map. */
  function Assemble(g: NativeGrid, t: Tracker, order: seq<StopId>, firstStops: seq<string>): (r: TimetableResult)
    requires RowsKnown(g, t.stops) && AllKnown(order, t.stops) && OrderMatches(t) && KnownStops(t)
    ensures r.grid == WithIntegerIds(g, t.stops) && r.orderedStopIds == OrderedStopIds(r.grid)
    ensures r.message.Some? <==> t.imminent == map[]
  {
    var fixed := WithIntegerIds(g, t.stops);
    var imminentIds := ImminentStopIds(t.imminentOrder, t.imminent);
    TimetableResult(
      IntKeyed(order, t.stops),
      IntKeyOrder(order, t.stops),
      firstStops,
      ImminentKeys(imminentIds, t.stops),
      OrderedStopIds(fixed),
      fixed,
      NoMoreTrips(t.imminent))
  }

  /**
   * The result for a set of rows, metadata rows and time: NoRouteData for
   * no rows; otherwise the re-keyed stop records, the first stops, the
   * imminent stop keys, the ordered integer stop ids, the remapped grid and
   * the alert when nothing is still to come.
   */
  function Timetable(rows: seq<Stopping>, meta: seq<StopMeta>, nowHour: nat, nowMin: nat): (r: Result<TimetableResult, LoadError>)
    requires Loadable(rows, meta)
    ensures r.Err? <==> rows == []
  {
    if rows == [] then Err(NoRouteData)
    else
      var t := ArrivalsOf(rows, meta, nowHour, nowMin);
      StopOrderKnown(rows, meta);
      Ok(Assemble(GridOf(rows, meta, nowHour, nowMin), t, StopOrder(rows, meta), Dedup(FirstNames(TripsOf(rows)))))
  }

  // ---------------------------------------------------------------------
  // Properties of the whole build

  lemma {:induction false} FirstNamesHas(ts: seq<seq<Stopping>>, x: string)
    ensures x in FirstNames(ts) <==> exists k :: 0 <= k < |ts| && ts[k] != [] && ts[k][0].stopName == x
  {
    if ts != [] {
      var p := ts[..|ts| - 1];
      FirstNamesHas(p, x);
      assert forall k :: 0 <= k < |p| ==> p[k] == ts[k];
    }
  }

  /** The first sorted stopping of trip k is one of its rows, with the lowest stop_sequence of them all. */
  lemma TripFirstIsLowest(rows: seq<Stopping>, k: nat)
    requires k < |TripOrder(rows)|
    ensures TripsOf(rows)[k] != []
    ensures var first := TripsOf(rows)[k][0];
      && first in rows && first.tripId == TripOrder(rows)[k]
      && forall i :: 0 <= i < |rows| && rows[i].tripId == first.tripId ==> first.stopSequence <= rows[i].stopSequence
  {
    var t := TripOrder(rows)[k];
    var group := RowsOfTrip(rows, t);
    GroupsCoverRows(rows, t);
    SortBySequenceSorts(group);
    SortedFirstIsLowest(group);
    var first := TripsOf(rows)[k][0];
    assert first in multiset(group);
    forall i | 0 <= i < |rows| && rows[i].tripId == t ensures first.stopSequence <= rows[i].stopSequence {
      var j :| 0 <= j < |group| && group[j] == rows[i];
    }
  }

  /**
   * first_stop: without repetitions, exactly the names of the trips' first
   * stops, each trip's first stop being its row with the lowest
   * stop_sequence.
   */
  lemma FirstStopsAreTripOrigins(rows: seq<Stopping>)
    ensures Distinct(Dedup(FirstNames(TripsOf(rows))))
    ensures forall x :: x in Dedup(FirstNames(TripsOf(rows))) <==>
      exists k :: 0 <= k < |TripsOf(rows)| && TripsOf(rows)[k] != [] && TripsOf(rows)[k][0].stopName == x
    ensures forall k :: 0 <= k < |TripsOf(rows)| ==>
      && TripsOf(rows)[k] != [] && TripsOf(rows)[k][0] in rows
      && forall i :: 0 <= i < |rows| && rows[i].tripId == TripsOf(rows)[k][0].tripId ==>
           TripsOf(rows)[k][0].stopSequence <= rows[i].stopSequence
  {
    var ts := TripsOf(rows);
    DedupDistinct(FirstNames(ts));
    FirstNamesListed(ts);
    TripsStartLowest(rows);
  }

  lemma FirstNamesListed(ts: seq<seq<Stopping>>)
    ensures forall x :: x in Dedup(FirstNames(ts)) <==> exists k :: 0 <= k < |ts| && ts[k] != [] && ts[k][0].stopName == x
  {
    forall x ensures x in Dedup(FirstNames(ts)) <==> exists k :: 0 <= k < |ts| && ts[k] != [] && ts[k][0].stopName == x {
      FirstNamesHas(ts, x);
    }
  }

  lemma TripsStartLowest(rows: seq<Stopping>)
    ensures forall k :: 0 <= k < |TripsOf(rows)| ==>
      && TripsOf(rows)[k] != [] && TripsOf(rows)[k][0] in rows
      && forall i :: 0 <= i < |rows| && rows[i].tripId == TripsOf(rows)[k][0].tripId ==>
           TripsOf(rows)[k][0].stopSequence <= rows[i].stopSequence
  {
    var ts: seq<seq<Stopping>> := TripsOf(rows);
    forall k | 0 <= k < |ts| ensures ts[k] != [] && ts[k][0] in rows
      && forall i :: 0 <= i < |rows| && rows[i].tripId == ts[k][0].tripId ==> ts[k][0].stopSequence <= rows[i].stopSequence
    {
      TripFirstIsLowest(rows, k);
    }
  }

  /** The stoppings make_grid walks are the rows, in another order. */
  lemma FlattenIsRows(rows: seq<Stopping>)
    ensures forall s :: s in Flatten(TripsOf(rows)) <==> s in rows
  {
    var ts := TripsOf(rows);
    TripsHoldRows(rows);
    forall s | s in Flatten(ts) ensures s in rows {
      FlattenFrom(ts, s);
    }
  }

  /** No walked stopping is still to come exactly when no row is. */
  lemma NothingAheadInRows(rows: seq<Stopping>, nowHour: nat, nowMin: nat)
    requires AllValid(rows)
    ensures AllValid(Flatten(TripsOf(rows)))
    ensures (forall j :: 0 <= j < |Flatten(TripsOf(rows))| ==> !InFuture(Flatten(TripsOf(rows))[j].arrivalTime, nowHour, nowMin))
      <==> (forall i :: 0 <= i < |rows| ==> !InFuture(rows[i].arrivalTime, nowHour, nowMin))
  {
    FlattenValid(rows);
    if forall i :: 0 <= i < |rows| ==> !InFuture(rows[i].arrivalTime, nowHour, nowMin) {
      NoneAheadInFlatten(rows, nowHour, nowMin);
    } else {
      var i :| 0 <= i < |rows| && InFuture(rows[i].arrivalTime, nowHour, nowMin);
      var j := FlattenHasRow(rows, i);
    }
  }

  lemma NoneAheadInFlatten(rows: seq<Stopping>, nowHour: nat, nowMin: nat)
    requires AllValid(rows) && AllValid(Flatten(TripsOf(rows)))
    requires forall i :: 0 <= i < |rows| ==> !InFuture(rows[i].arrivalTime, nowHour, nowMin)
    ensures forall j :: 0 <= j < |Flatten(TripsOf(rows))| ==> !InFuture(Flatten(TripsOf(rows))[j].arrivalTime, nowHour, nowMin)
  {
    var ps := Flatten(TripsOf(rows));
    FlattenIsRows(rows);
    forall j | 0 <= j < |ps| ensures !InFuture(ps[j].arrivalTime, nowHour, nowMin) {
      assert ps[j] in rows;
    }
  }

  lemma FlattenHasRow(rows: seq<Stopping>, i: nat) returns (j: nat)
    requires i < |rows|
    ensures j < |Flatten(TripsOf(rows))| && Flatten(TripsOf(rows))[j] == rows[i]
  {
    FlattenIsRows(rows);
    assert rows[i] in Flatten(TripsOf(rows));
    j :| j < |Flatten(TripsOf(rows))| && Flatten(TripsOf(rows))[j] == rows[i];
  }

  lemma FlattenValid(rows: seq<Stopping>)
    requires AllValid(rows)
    ensures AllValid(Flatten(TripsOf(rows)))
  {
    var ps := Flatten(TripsOf(rows));
    FlattenIsRows(rows);
    forall j | 0 <= j < |ps| ensures ValidStopping(ps[j]) {
      assert ps[j] in rows;
    }
  }

  /**
   * The result carries the "No more trips for the day" alert exactly when
   * no row's arrival is still to come, and NoRouteData is raised exactly for
   * an empty set of rows.
   */
  lemma MessageIffNothingAhead(rows: seq<Stopping>, meta: seq<StopMeta>, nowHour: nat, nowMin: nat)
    requires Loadable(rows, meta)
    ensures AllValid(rows)
    ensures Timetable(rows, meta, nowHour, nowMin).Err? <==> rows == []
    ensures Timetable(rows, meta, nowHour, nowMin).Ok? ==>
      (Timetable(rows, meta, nowHour, nowMin).value.message.Some? <==>
       forall i :: 0 <= i < |rows| ==> !InFuture(rows[i].arrivalTime, nowHour, nowMin))
  {
    if rows != [] {
      TimetableParts(rows, meta, nowHour, nowMin);
      TimetableAssembled(rows, meta, nowHour, nowMin);
      NoImminentIffNoFuture(Loaded(meta), Flatten(TripsOf(rows)), nowHour, nowMin);
      NothingAheadInRows(rows, nowHour, nowMin);
    }
  }
}
