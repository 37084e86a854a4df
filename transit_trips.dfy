/**
 * class TransitTrips: the timetable builder itself, with the state it
 * updates in place (the trips hash, the stops hash with each stop's
 * next_arrivals list, the imminent map, the grid and the first stops),
 * each method proved against the specification functions of the other
 * modules.
 */
module Trips {
  import opened Common
  import opened TimeFormat
  import opened Schedule
  import opened Grid
  import opened Arrivals
  import opened Assembly
  import opened BuilderSteps

  class TransitTrips {
    /** The current hour and minute, read once for the whole build. */
    const nowHour: nat
    const nowMin: nat

    /** @trips: the keys in insertion order, and each trip's rows. */
    var tripOrder: seq<TripId>
    var trips: map<TripId, seq<Stopping>>
    /** @stops: the keys in insertion order, and each stop's record. */
    var stopOrder: seq<StopId>
    var stops: map<StopId, StopInfo>
    /** @next_arrivals: the keys in insertion order, and each trip's imminent entry. */
    var imminentOrder: seq<TripId>
    var imminent: map<TripId, Imminent>
    var grid: NativeGrid
    /** @first_stops, as the Set's elements in insertion order. */
    var firstStops: seq<string>
    /** @grid after fix_grid_stop_ids. */
    var fixedGrid: seq<GridRow<nat>>
    /** @fixed_stops: the keys in insertion order, and the records. */
    var fixedOrder: seq<string>
    var fixedStops: map<string, StopInfo>

    /** The hashes start out empty. */
    constructor (nowHour: nat, nowMin: nat)
      ensures this.nowHour == nowHour && this.nowMin == nowMin
      ensures tripOrder == [] && trips == map[] && stopOrder == [] && stops == map[]
      ensures imminentOrder == [] && imminent == map[]
    {
      this.nowHour := nowHour;
      this.nowMin := nowMin;
      tripOrder, trips := [], map[];
      stopOrder, stops := [], map[];
      imminentOrder, imminent := [], map[];
      grid, firstStops := [], [];
      fixedGrid, fixedOrder, fixedStops := [], [], map[];
    }

    /** The part of the state add_next_arrival works on. */
    function ArrivalState(): Tracker
      reads this`stops, this`imminentOrder, this`imminent
    {
      Tracker(stops, imminentOrder, imminent)
    }

    /** Every trip key has its rows. */
    predicate TripsKnown()
      reads this`tripOrder, this`trips
    {
      forall k :: 0 <= k < |tripOrder| ==> tripOrder[k] in trips
    }

    /** The trips in column order, each sorted by stop_sequence. */
    function SortedTrips(): seq<seq<Stopping>>
      reads this`tripOrder, this`trips
      requires TripsKnown()
    {
      SortedGroups(tripOrder, trips)
    }

    /**
     * calc_next_arrivals: group the rows into @trips (first-seen key order,
     * row order inside a trip) and register each row's stop; raise
     * NoRouteData for no rows; otherwise load the stop records from the
     * metadata rows, a later row for a stop replacing an earlier one.
     */
    method CalcNextArrivals(rows: seq<Stopping>, meta: seq<StopMeta>) returns (o: Outcome<LoadError>)
      requires tripOrder == [] && trips == map[] && stopOrder == [] && stops == map[]
      modifies this`tripOrder, this`trips, this`stopOrder, this`stops
      ensures tripOrder == TripOrder(rows) && trips == Groups(rows)
      ensures o.Fail? <==> rows == []
      ensures o.Fail? ==> o.error == NoRouteData
      ensures o.Pass? ==> stops == MetaMap(meta) && stopOrder == StopOrder(rows, meta)
    {
      var order, groups, ids := GroupRows(rows);
      tripOrder, trips := order, groups;
      if order == [] {
        stopOrder := ids;
        return Fail(NoRouteData);
      }
      var infos, known := LoadStops(rows, meta, ids);
      stops, stopOrder := infos, known;
      return Pass;
    }

    /** add_next_arrival, as one step of the tracker. */
    method AddNextArrival(stopId: StopId, time: Option<string>, tripId: TripId)
      requires stopId in stops && (time.Some? ==> ValidTime(time.value))
      modifies this`stops, this`imminentOrder, this`imminent
      ensures ArrivalState() == Step(old(ArrivalState()), stopId, time, tripId, nowHour, nowMin)
    {
      var info := stops[stopId];
      if |info.nextArrivals| >= NEXT_ARRIVALS_MAX {
        return;
      }
      var flagged := FormatAndFlagTime(time, nowHour, nowMin);
      if flagged.Some? && flagged.value.flag == 1 {
        stops := stops[stopId := info.(nextArrivals := info.nextArrivals + [Arrival(flagged.value.text, tripId)])];
        if tripId !in imminent {
          imminent := imminent[tripId := Imminent(stopId, time.value)];
          imminentOrder := imminentOrder + [tripId];
        }
      }
    }

    /** The trips make_grid walks are well formed and every stopping has a stop record. */
    predicate ReadyForGrid()
      reads this
    {
      && TripsKnown()
      && AllTripsValid(SortedTrips())
      && EachSupported(SortedTrips(), stops)
      && Initial(ArrivalState())
    }

    /**
     * make_grid: walk the trips in column order and each trip's stoppings in
     * stop_sequence order; each stopping reports its arrival, and either
     * writes its slot into the row of its stop (moving the cursor just past
     * that row) or inserts a new row at the cursor. The grid, the first stops
     * and the arrival state end as the specification functions say.
     */
    method MakeGrid()
      requires ReadyForGrid()
      modifies this`grid, this`firstStops, this`stops, this`imminentOrder, this`imminent
      ensures grid == BuildGrid(old(SortedTrips()), nowHour, nowMin)
      ensures firstStops == Dedup(FirstNames(old(SortedTrips())))
      ensures Supported(Flatten(old(SortedTrips())), old(stops))
      ensures ArrivalState() == Replay(old(ArrivalState()), Flatten(old(SortedTrips())), nowHour, nowMin)
    {
      var ts := SortedTrips();
      var width := |tripOrder|;
      ghost var t0 := ArrivalState();
      assert EachSupported(ts, t0.stops);
      ColumnsStart(ts, t0, nowHour, nowMin);
      var rowsSoFar: NativeGrid, firsts: seq<string> := [], [];
      var col := 0;
      while col < width
        invariant 0 <= col <= width
        invariant EachSupported(ts, t0.stops)
        invariant ColumnsDone(ts, col, rowsSoFar, firsts, t0, ArrivalState(), nowHour, nowMin)
      {
        rowsSoFar, firsts := PlaceStoppings(ts, col, rowsSoFar, firsts, t0);
        col := col + 1;
      }
      ColumnsEnd(ts, rowsSoFar, firsts, t0, ArrivalState(), nowHour, nowMin);
      grid, firstStops := rowsSoFar, firsts;
    }

    /**
     * The block make_grid runs for trip `col`: each of its sorted stoppings
     * is reported to add_next_arrival, may become a first stop, and either
     * writes its slot into the row of its stop (moving the cursor just past
     * that row) or inserts a new row at the cursor.
     */
    method PlaceStoppings(ts: seq<seq<Stopping>>, col: nat, rowsIn: NativeGrid, firstsIn: seq<string>,
                          ghost t0: Tracker)
      returns (rowsOut: NativeGrid, firstsOut: seq<string>)
      requires col < |ts| && Supported(ts[col], t0.stops)
      requires ColumnsDone(ts, col, rowsIn, firstsIn, t0, ArrivalState(), nowHour, nowMin)
      modifies this`stops, this`imminentOrder, this`imminent
      ensures ColumnsDone(ts, col + 1, rowsOut, firstsOut, t0, ArrivalState(), nowHour, nowMin)
    {
      var ss, width := ts[col], |ts|;
      rowsOut, firstsOut := rowsIn, firstsIn;
      StoppingsStart(ts, col, rowsOut, firstsOut, t0, ArrivalState(), nowHour, nowMin);
      var cursor := 0;
      var i := 0;
      while i < |ss|
        invariant 0 <= i <= |ss| && 0 <= cursor
        invariant StoppingsDone(ts, col, i, rowsOut, cursor, rowsIn, firstsOut, t0, ArrivalState(), nowHour, nowMin)
        decreases |ss| - i
      {
        var s, next := ss[i], i + 1;
        StoppingsStep(ts, col, i, next, rowsOut, cursor, rowsIn, firstsOut, t0, ArrivalState(), nowHour, nowMin);
        var time := FormatAndFlagTime(s.arrivalTime, nowHour, nowMin);
        AddNextArrival(s.stopId, s.arrivalTime, s.tripId);
        if i == 0 && s.stopName !in firstsOut {
          firstsOut := firstsOut + [s.stopName];
        }
        rowsOut, cursor := PlaceStopping(rowsOut, cursor, col, width, s, time);
        i := next;
      }
      StoppingsEnd(ts, col, col + 1, rowsOut, cursor, rowsIn, firstsOut, t0, ArrivalState(), nowHour, nowMin);
    }

    /** fix_grid_stop_ids. */
    method FixGridStopIds()
      requires RowsKnown(grid, stops)
      modifies this`fixedGrid
      ensures fixedGrid == WithIntegerIds(grid, stops)
    {
      fixedGrid := WithIntegerIds(grid, stops);
    }

    /**
     * use_int_keys: the stops hash, walked in key order, re-filed under
     * each record's integer id string; kept as fixed_stops.
     */
    method UseIntKeys() returns (r: map<string, StopInfo>)
      requires AllKnown(stopOrder, stops)
      modifies this`fixedStops, this`fixedOrder
      ensures fixedStops == IntKeyed(stopOrder, stops) && fixedOrder == IntKeyOrder(stopOrder, stops)
      ensures r == fixedStops
    {
      var byKey, keys := FileByIntKey(stopOrder, stops);
      fixedStops, fixedOrder := byKey, keys;
      r := byKey;
    }

    /** result: the hash of the build, without its region. */
    method Result() returns (res: TimetableResult)
      requires RowsKnown(grid, stops) && fixedGrid == WithIntegerIds(grid, stops)
      requires AllKnown(stopOrder, stops) && OrderMatches(ArrivalState()) && KnownStops(ArrivalState())
      modifies this`fixedStops, this`fixedOrder
      ensures res == Assemble(grid, ArrivalState(), stopOrder, firstStops)
      ensures fixedStops == IntKeyed(stopOrder, stops) && fixedOrder == IntKeyOrder(stopOrder, stops)
    {
      var byIntKey := UseIntKeys();
      var imminentIds := ImminentStopIds(imminentOrder, imminent);
      res := TimetableResult(
        byIntKey,
        fixedOrder,
        firstStops,
        ImminentKeys(imminentIds, stops),
        OrderedStopIds(fixedGrid),
        fixedGrid,
        NoMoreTrips(imminent));
    }
  }

  /** fix_grid_stop_ids, then result, on a built timetable. */
  method Publish(tt: TransitTrips) returns (res: TimetableResult)
    requires RowsKnown(tt.grid, tt.stops) && AllKnown(tt.stopOrder, tt.stops)
    requires OrderMatches(tt.ArrivalState()) && KnownStops(tt.ArrivalState())
    modifies tt`fixedGrid, tt`fixedStops, tt`fixedOrder
    ensures res == Assemble(tt.grid, tt.ArrivalState(), tt.stopOrder, tt.firstStops)
    ensures tt.fixedGrid == WithIntegerIds(tt.grid, tt.stops)
    ensures tt.fixedStops == IntKeyed(tt.stopOrder, tt.stops) && tt.fixedOrder == IntKeyOrder(tt.stopOrder, tt.stops)
  {
    tt.FixGridStopIds();
    res := tt.Result();
  }

  /**
   * One stopping of make_grid's inner loop: scan the rows for the stop; if
   * it has a row, write the slot into column `col` there and move the cursor
   * just past it; otherwise insert a new row, nil everywhere but column
   * `col`, at the cursor and move the cursor past it.
   */
  method PlaceStopping(g: NativeGrid, cursor: nat, col: nat, width: nat, s: Stopping, time: Slot)
    returns (g': NativeGrid, cursor': nat)
    requires WellFormed(g, width) && cursor <= |g| && col < width
    ensures (g', cursor') == Place(g, cursor, col, width, s, time)
    ensures WellFormed(g', width) && 1 <= cursor' <= |g'|
  {
    var found := FindRow(g, s.stopId);
    if found.Some? {
      var j := found.value;
      PlaceFound(g, cursor, col, width, s, time, j);
      g' := g[j := g[j].(times := g[j].times[col := time])];
      cursor' := j + 1;
    } else {
      PlaceInserts(g, cursor, col, width, s, time);
      g' := g[..cursor] + [GridRow(s.stopId, s.stopName, NewTimes(width, col, time))] + g[cursor..];
      cursor' := cursor + 1;
    }
  }

  /**
   * The row loop of calc_next_arrivals: each row joins its trip's group,
   * a trip's key being registered on its first row, and each row's stop
   * is registered on first sight.
   */
  method GroupRows(rows: seq<Stopping>) returns (order: seq<TripId>, groups: map<TripId, seq<Stopping>>, ids: seq<StopId>)
    ensures order == TripOrder(rows) && groups == Groups(rows)
    ensures ids == Dedup(RowStopIds(rows))
    ensures order == [] <==> rows == []
  {
    order, groups, ids := [], map[], [];
    RowsReadStart(rows);
    var i := 0;
    while i < |rows|
      invariant 0 <= i <= |rows|
      invariant RowsRead(rows, i, order, groups, ids)
    {
      var row, next := rows[i], i + 1;
      RowsReadStep(rows, i, next, order, groups, ids);
      var group := if row.tripId in groups then groups[row.tripId] else [];
      if row.tripId !in groups {
        order := order + [row.tripId];
      }
      groups := groups[row.tripId := group + [row]];
      if row.stopId !in ids {
        ids := ids + [row.stopId];
      }
      i := next;
    }
    RowsReadEnd(rows, order, groups, ids);
  }

  /**
   * The metadata loop of calc_next_arrivals: each metadata row's record
   * replaces any earlier one for its stop; a stop the rows did not name
   * joins the key order at the end.
   */
  method LoadStops(rows: seq<Stopping>, meta: seq<StopMeta>, rowIds: seq<StopId>)
    returns (infos: map<StopId, StopInfo>, ids: seq<StopId>)
    requires rowIds == Dedup(RowStopIds(rows))
    ensures infos == MetaMap(meta) && ids == StopOrder(rows, meta)
  {
    infos, ids := map[], rowIds;
    MetaReadStart(rows, meta);
    var j := 0;
    while j < |meta|
      invariant 0 <= j <= |meta|
      invariant MetaRead(rows, meta, j, infos, ids)
    {
      var m, next := meta[j], j + 1;
      MetaReadStep(rows, meta, j, next, infos, ids);
      infos := infos[m.stopId := ConvertStopData(m)];
      if m.stopId !in ids {
        ids := ids + [m.stopId];
      }
      j := next;
    }
    MetaReadEnd(rows, meta, infos, ids);
  }

  /** The loop of use_int_keys: each record in key order is filed under its integer id string, a later one overwriting an earlier. */
  method FileByIntKey(order: seq<StopId>, stops: map<StopId, StopInfo>) returns (byKey: map<string, StopInfo>, keys: seq<string>)
    requires AllKnown(order, stops)
    ensures byKey == IntKeyed(order, stops) && keys == IntKeyOrder(order, stops)
  {
    byKey, keys := map[], [];
    KeyedStart(order, stops);
    var i := 0;
    while i < |order|
      invariant 0 <= i <= |order|
      invariant KeyedUpTo(order, stops, i, byKey, keys)
    {
      var id, next := order[i], i + 1;
      KeyedStep(order, stops, i, next, byKey, keys);
      var key := IntKeyString(stops, id);
      if key !in keys {
        keys := keys + [key];
      }
      byKey := byKey[key := stops[id]];
      i := next;
    }
    KeyedEnd(order, stops, byKey, keys);
  }

  /**
   * TransitTrips.new followed by result: the builder's state machine gives
   * exactly the result the specification function describes, NoRouteData
   * included.
   */
  method BuildResult(rows: seq<Stopping>, meta: seq<StopMeta>, nowHour: nat, nowMin: nat)
    returns (r: Result<TimetableResult, LoadError>)
    requires Loadable(rows, meta)
    ensures r == Timetable(rows, meta, nowHour, nowMin)
  {
    var tt := new TransitTrips(nowHour, nowMin);
    var o := tt.CalcNextArrivals(rows, meta);
    if o.Fail? {
      return Err(o.error);
    }
    var res := Finish(tt, rows, meta);
    return Ok(res);
  }

  /** The rest of TransitTrips.new (make_grid, fix_grid_stop_ids) and result, once the rows are loaded. */
  method Finish(tt: TransitTrips, rows: seq<Stopping>, meta: seq<StopMeta>) returns (res: TimetableResult)
    requires Loadable(rows, meta) && rows != []
    requires tt.tripOrder == TripOrder(rows) && tt.trips == Groups(rows)
    requires tt.stops == MetaMap(meta) && tt.stopOrder == StopOrder(rows, meta)
    requires tt.imminentOrder == [] && tt.imminent == map[]
    modifies tt`grid, tt`firstStops, tt`stops, tt`imminentOrder, tt`imminent
    modifies tt`fixedGrid, tt`fixedStops, tt`fixedOrder
    ensures Timetable(rows, meta, tt.nowHour, tt.nowMin) == Ok(res)
    ensures tt.grid == GridOf(rows, meta, tt.nowHour, tt.nowMin)
    ensures tt.ArrivalState() == ArrivalsOf(rows, meta, tt.nowHour, tt.nowMin)
    ensures tt.firstStops == Dedup(FirstNames(TripsOf(rows)))
    ensures tt.stopOrder == StopOrder(rows, meta)
    ensures RowsKnown(tt.grid, tt.stops) && AllKnown(tt.stopOrder, tt.stops)
    ensures tt.fixedGrid == WithIntegerIds(tt.grid, tt.stops)
    ensures tt.fixedStops == IntKeyed(tt.stopOrder, tt.stops) && tt.fixedOrder == IntKeyOrder(tt.stopOrder, tt.stops)
  {
    GridLoaded(tt, rows, meta);
    res := Publish(tt);
    TimetableAssembled(rows, meta, tt.nowHour, tt.nowMin);
  }

  /** make_grid on the loaded rows: the grid and arrival state the specification functions give. */
  method GridLoaded(tt: TransitTrips, rows: seq<Stopping>, meta: seq<StopMeta>)
    requires Loadable(rows, meta) && rows != []
    requires tt.tripOrder == TripOrder(rows) && tt.trips == Groups(rows)
    requires tt.stops == MetaMap(meta) && tt.stopOrder == StopOrder(rows, meta)
    requires tt.imminentOrder == [] && tt.imminent == map[]
    modifies tt`grid, tt`firstStops, tt`stops, tt`imminentOrder, tt`imminent
    ensures tt.grid == GridOf(rows, meta, tt.nowHour, tt.nowMin)
    ensures tt.ArrivalState() == ArrivalsOf(rows, meta, tt.nowHour, tt.nowMin)
    ensures tt.firstStops == Dedup(FirstNames(TripsOf(rows)))
    ensures RowsKnown(tt.grid, tt.stops) && OrderMatches(tt.ArrivalState()) && KnownStops(tt.ArrivalState())
    ensures AllKnown(tt.stopOrder, tt.stops)
  {
    StopOrderKnown(rows, meta);
    TripsSupported(rows, tt.stops);
    TimetableParts(rows, meta, tt.nowHour, tt.nowMin);
    assert tt.SortedTrips() == TripsOf(rows);
    tt.MakeGrid();
    KnownAfterBuild(rows, meta, tt.nowHour, tt.nowMin);
  }
}
