/**
 * The loop invariants of TransitTrips' methods, each as one predicate over
 * the loop's variables, with a lemma for its start, one for each step and
 * one for its end. The class's loops then only carry these predicates.
 */
module BuilderSteps {
  import opened Common
  import opened Schedule
  import opened Grid
  import opened Arrivals
  import opened Assembly

  // ---------------------------------------------------------------------
  // calc_next_arrivals, first loop: the stopping rows

  /** After the first `i` rows: the trips and their rows, and the stops registered so far. */
  predicate RowsRead(rows: seq<Stopping>, i: nat, tripOrder: seq<TripId>,
                     trips: map<TripId, seq<Stopping>>, stopOrder: seq<StopId>) {
    && i <= |rows|
    && tripOrder == TripOrder(rows[..i])
    && trips == Groups(rows[..i])
    && stopOrder == Dedup(RowStopIds(rows[..i]))
  }

  lemma RowsReadStart(rows: seq<Stopping>)
    ensures RowsRead(rows, 0, [], map[], [])
  {
    assert rows[..0] == [];
  }

  /** One more row: its trip is registered on first sight and the row joins its group; its stop likewise. */
  lemma RowsReadStep(rows: seq<Stopping>, i: nat, next: nat, tripOrder: seq<TripId>,
                     trips: map<TripId, seq<Stopping>>, stopOrder: seq<StopId>)
    requires i < |rows| && next == i + 1 && RowsRead(rows, i, tripOrder, trips, stopOrder)
    ensures RowsRead(rows, next,
      if rows[i].tripId in trips then tripOrder else tripOrder + [rows[i].tripId],
      trips[rows[i].tripId := (if rows[i].tripId in trips then trips[rows[i].tripId] else []) + [rows[i]]],
      if rows[i].stopId in stopOrder then stopOrder else stopOrder + [rows[i].stopId])
  {
    var p, s := rows[..i], rows[i];
    assert rows[..i + 1] == p + [s];
    GroupsSnoc(p, s);
    TripOrderSnocRow(p, s);
    assert RowStopIds(p + [s]) == RowStopIds(p) + [s.stopId];
    DedupSnoc(RowStopIds(p), s.stopId);
  }

  lemma TripOrderSnocRow(p: seq<Stopping>, s: Stopping)
    ensures TripOrder(p + [s]) == if s.tripId in Groups(p) then TripOrder(p) else TripOrder(p) + [s.tripId]
  {
    GroupsSnoc(p, s);
    DedupSnoc(TripIds(p), s.tripId);
  }

  /** All rows read: the trips are those of the rows, and there are none exactly when there are no rows. */
  lemma RowsReadEnd(rows: seq<Stopping>, tripOrder: seq<TripId>,
                    trips: map<TripId, seq<Stopping>>, stopOrder: seq<StopId>)
    requires RowsRead(rows, |rows|, tripOrder, trips, stopOrder)
    ensures tripOrder == TripOrder(rows) && trips == Groups(rows)
    ensures stopOrder == Dedup(RowStopIds(rows))
    ensures tripOrder == [] <==> rows == []
  {
    assert rows[..|rows|] == rows;
    if rows != [] {
      assert TripIds(rows)[0] in TripOrder(rows);
    }
  }

  // ---------------------------------------------------------------------
  // calc_next_arrivals, second loop: the metadata rows

  /** After the first `j` metadata rows: their records, and the stop keys so far. */
  predicate MetaRead(rows: seq<Stopping>, meta: seq<StopMeta>, j: nat,
                     stops: map<StopId, StopInfo>, stopOrder: seq<StopId>) {
    && j <= |meta|
    && stops == MetaMap(meta[..j])
    && stopOrder == Dedup(RowStopIds(rows) + MetaStopIds(meta[..j]))
  }

  lemma MetaReadStart(rows: seq<Stopping>, meta: seq<StopMeta>)
    ensures MetaRead(rows, meta, 0, map[], Dedup(RowStopIds(rows)))
  {
    assert meta[..0] == [] && RowStopIds(rows) + MetaStopIds([]) == RowStopIds(rows);
  }

  lemma MetaStopIdsSnoc(meta: seq<StopMeta>, j: nat, next: nat)
    requires j < |meta| && next == j + 1
    ensures MetaStopIds(meta[..next]) == MetaStopIds(meta[..j]) + [meta[j].stopId]
  {
    var a, b := MetaStopIds(meta[..next]), MetaStopIds(meta[..j]) + [meta[j].stopId];
    assert |a| == |b|;
    forall k | 0 <= k < |a| ensures a[k] == b[k] {
      if k < j {
        assert a[k] == meta[k].stopId;
      }
    }
  }

  lemma MetaMapSnoc(meta: seq<StopMeta>, j: nat, next: nat)
    requires j < |meta| && next == j + 1
    ensures MetaMap(meta[..next]) == MetaMap(meta[..j])[meta[j].stopId := ConvertStopData(meta[j])]
  {
    var p := meta[..next];
    assert p[..|p| - 1] == meta[..j] && p[|p| - 1] == meta[j];
  }

  lemma MetaOrderSnoc(rows: seq<Stopping>, meta: seq<StopMeta>, j: nat, next: nat)
    requires j < |meta| && next == j + 1
    ensures Dedup(RowStopIds(rows) + MetaStopIds(meta[..next])) ==
      var d := Dedup(RowStopIds(rows) + MetaStopIds(meta[..j]));
      if meta[j].stopId in d then d else d + [meta[j].stopId]
  {
    MetaStopIdsSnoc(meta, j, next);
    var before := RowStopIds(rows) + MetaStopIds(meta[..j]);
    assert RowStopIds(rows) + MetaStopIds(meta[..next]) == before + [meta[j].stopId];
    DedupSnoc(before, meta[j].stopId);
  }

  /** One more metadata row: its record replaces any earlier one, and its stop is registered on first sight. */
  lemma MetaReadStep(rows: seq<Stopping>, meta: seq<StopMeta>, j: nat, next: nat,
                     stops: map<StopId, StopInfo>, stopOrder: seq<StopId>)
    requires j < |meta| && next == j + 1 && MetaRead(rows, meta, j, stops, stopOrder)
    ensures MetaRead(rows, meta, next,
      stops[meta[j].stopId := ConvertStopData(meta[j])],
      if meta[j].stopId in stopOrder then stopOrder else stopOrder + [meta[j].stopId])
  {
    MetaMapSnoc(meta, j, next);
    MetaOrderSnoc(rows, meta, j, next);
  }

  lemma MetaReadEnd(rows: seq<Stopping>, meta: seq<StopMeta>,
                    stops: map<StopId, StopInfo>, stopOrder: seq<StopId>)
    requires MetaRead(rows, meta, |meta|, stops, stopOrder)
    ensures stops == MetaMap(meta) && stopOrder == StopOrder(rows, meta)
  {
    assert meta[..|meta|] == meta;
  }

  // ---------------------------------------------------------------------
  // make_grid, outer loop: the trips, one column each

  /**
   * After the first `col` trips: merging the remaining trips into `grid`
   * gives the whole grid, the first stops are those of these trips, and
   * the arrival state has seen their stoppings.
   */
  predicate ColumnsDone(ts: seq<seq<Stopping>>, col: nat, grid: NativeGrid, firstStops: seq<string>,
                        t0: Tracker, t: Tracker, nowHour: nat, nowMin: nat) {
    && col <= |ts| && AllTripsValid(ts) && WellFormed(grid, |ts|)
    && BuildFrom(grid, ts, col, nowHour, nowMin) == BuildGrid(ts, nowHour, nowMin)
    && firstStops == Dedup(FirstNames(ts[..col]))
    && Supported(Flatten(ts[..col]), t0.stops)
    && t == Replay(t0, Flatten(ts[..col]), nowHour, nowMin)
  }

  lemma ColumnsStart(ts: seq<seq<Stopping>>, t0: Tracker, nowHour: nat, nowMin: nat)
    requires AllTripsValid(ts)
    ensures ColumnsDone(ts, 0, [], [], t0, t0, nowHour, nowMin)
  {
    assert ts[..0] == [];
  }

  lemma ColumnsEnd(ts: seq<seq<Stopping>>, grid: NativeGrid, firstStops: seq<string>,
                   t0: Tracker, t: Tracker, nowHour: nat, nowMin: nat)
    requires ColumnsDone(ts, |ts|, grid, firstStops, t0, t, nowHour, nowMin)
    ensures grid == BuildGrid(ts, nowHour, nowMin)
    ensures firstStops == Dedup(FirstNames(ts))
    ensures Supported(Flatten(ts), t0.stops)
    ensures t == Replay(t0, Flatten(ts), nowHour, nowMin)
  {
    assert ts[..|ts|] == ts;
  }

  // ---------------------------------------------------------------------
  // make_grid, inner loop: the stoppings of trip `col`

  /**
   * After the first `i` stoppings of trip `col`: merging the rest of the
   * trip from the cursor gives the merge of the whole trip into `g0`, the
   * first stops include this trip's once it has begun, and the arrival
   * state has seen the stoppings so far.
   */
  predicate StoppingsDone(ts: seq<seq<Stopping>>, col: nat, i: nat, grid: NativeGrid, cursor: nat,
                          g0: NativeGrid, firstStops: seq<string>, t0: Tracker, t: Tracker,
                          nowHour: nat, nowMin: nat) {
    && col < |ts| && AllTripsValid(ts) && i <= |ts[col]|
    && WellFormed(g0, |ts|) && WellFormed(grid, |ts|) && cursor <= |grid|
    && MergeTrip(grid, cursor, col, |ts|, ts[col][i..], nowHour, nowMin) ==
       MergeTrip(g0, 0, col, |ts|, ts[col], nowHour, nowMin)
    && firstStops == Dedup(FirstNames(ts[..col]) + if i > 0 then [ts[col][0].stopName] else [])
    && Supported(Flatten(ts[..col]) + ts[col][..i], t0.stops)
    && t == Replay(t0, Flatten(ts[..col]) + ts[col][..i], nowHour, nowMin)
  }

  lemma StoppingsStart(ts: seq<seq<Stopping>>, col: nat, grid: NativeGrid, firstStops: seq<string>,
                       t0: Tracker, t: Tracker, nowHour: nat, nowMin: nat)
    requires col < |ts| && ColumnsDone(ts, col, grid, firstStops, t0, t, nowHour, nowMin)
    ensures StoppingsDone(ts, col, 0, grid, 0, grid, firstStops, t0, t, nowHour, nowMin)
  {
    assert ts[col][0..] == ts[col] && ts[col][..0] == [];
    assert Flatten(ts[..col]) + [] == Flatten(ts[..col]);
    assert FirstNames(ts[..col]) + [] == FirstNames(ts[..col]);
  }

  /** Merging the rest of a trip from stopping `i` is placing stopping `i`, then merging the rest after it. */
  lemma MergeStep(g: NativeGrid, cursor: nat, col: nat, width: nat, ss: seq<Stopping>, i: nat,
                  nowHour: nat, nowMin: nat)
    requires WellFormed(g, width) && cursor <= |g| && col < width && AllValid(ss) && i < |ss|
    ensures MergeTrip(g, cursor, col, width, ss[i..], nowHour, nowMin) ==
      var r := Place(g, cursor, col, width, ss[i], SlotOf(ss[i], nowHour, nowMin));
      MergeTrip(r.0, r.1, col, width, ss[i + 1..], nowHour, nowMin)
  {
    assert ss[i..][0] == ss[i] && ss[i..][1..] == ss[i + 1..];
  }

  /** Replaying one more stopping of the trip is one more step. */
  lemma ReplayStep(t0: Tracker, done: seq<Stopping>, ss: seq<Stopping>, i: nat, nowHour: nat, nowMin: nat)
    requires i < |ss| && Supported(done + ss[..i], t0.stops) && Supported(ss, t0.stops)
    ensures Supported(done + ss[..i + 1], t0.stops)
    ensures Replay(t0, done + ss[..i + 1], nowHour, nowMin) ==
      Step(Replay(t0, done + ss[..i], nowHour, nowMin), ss[i].stopId, ss[i].arrivalTime, ss[i].tripId, nowHour, nowMin)
  {
    assert done + ss[..i + 1] == (done + ss[..i]) + [ss[i]];
    ReplaySnoc(t0, done + ss[..i], ss[i], nowHour, nowMin);
  }

  /** The first stopping of a trip adds its name to the first stops unless it is there already. */
  lemma FirstStopStep(names: seq<string>, firstStops: seq<string>, ss: seq<Stopping>, i: nat)
    requires i < |ss| && firstStops == Dedup(names + if i > 0 then [ss[0].stopName] else [])
    ensures (if i == 0 && ss[i].stopName !in firstStops then firstStops + [ss[i].stopName] else firstStops) ==
      Dedup(names + [ss[0].stopName])
  {
    if i == 0 {
      assert names + [] == names;
      DedupSnoc(names, ss[0].stopName);
    }
  }

  /**
   * One more stopping: it is placed into the grid, reported to the arrival
   * state, and its name becomes a first stop when it opens its trip.
   */
  lemma StoppingsStep(ts: seq<seq<Stopping>>, col: nat, i: nat, next: nat, grid: NativeGrid, cursor: nat,
                      g0: NativeGrid, firstStops: seq<string>, t0: Tracker, t: Tracker,
                      nowHour: nat, nowMin: nat)
    requires StoppingsDone(ts, col, i, grid, cursor, g0, firstStops, t0, t, nowHour, nowMin)
    requires i < |ts[col]| && next == i + 1 && Supported(ts[col], t0.stops)
    ensures ValidStopping(ts[col][i]) && ts[col][i].stopId in t.stops
    ensures
      var s := ts[col][i];
      var r := Place(grid, cursor, col, |ts|, s, SlotOf(s, nowHour, nowMin));
      StoppingsDone(ts, col, next, r.0, r.1, g0,
        if i == 0 && s.stopName !in firstStops then firstStops + [s.stopName] else firstStops,
        t0, Step(t, s.stopId, s.arrivalTime, s.tripId, nowHour, nowMin), nowHour, nowMin)
  {
    var ss := ts[col];
    MergeStep(grid, cursor, col, |ts|, ss, i, nowHour, nowMin);
    ReplayStep(t0, Flatten(ts[..col]), ss, i, nowHour, nowMin);
    FirstStopStep(FirstNames(ts[..col]), firstStops, ss, i);
  }

  lemma StoppingsEnd(ts: seq<seq<Stopping>>, col: nat, next: nat, grid: NativeGrid, cursor: nat,
                     g0: NativeGrid, firstStops: seq<string>, t0: Tracker, t: Tracker,
                     nowHour: nat, nowMin: nat)
    requires col < |ts| && next == col + 1
    requires StoppingsDone(ts, col, |ts[col]|, grid, cursor, g0, firstStops, t0, t, nowHour, nowMin)
    requires BuildFrom(g0, ts, col, nowHour, nowMin) == BuildGrid(ts, nowHour, nowMin)
    ensures ColumnsDone(ts, next, grid, firstStops, t0, t, nowHour, nowMin)
  {
    var ss := ts[col];
    assert ss[|ss|..] == [] && ss[..|ss|] == ss;
    assert ts[..col + 1][..col] == ts[..col] && ts[..col + 1][col] == ss;
    assert Flatten(ts[..col + 1]) == Flatten(ts[..col]) + ss;
    assert FirstNames(ts[..col + 1]) == FirstNames(ts[..col]) + if ss != [] then [ss[0].stopName] else [];
  }

  // ---------------------------------------------------------------------
  // use_int_keys: the stops in key order

  /** After the first `i` stops in key order: their records under their integer id strings. */
  predicate KeyedUpTo(order: seq<StopId>, stops: map<StopId, StopInfo>, i: nat,
                      fixedStops: map<string, StopInfo>, fixedOrder: seq<string>) {
    && i <= |order| && AllKnown(order[..i], stops)
    && fixedStops == IntKeyed(order[..i], stops)
    && fixedOrder == IntKeyOrder(order[..i], stops)
  }

  lemma KeyedStart(order: seq<StopId>, stops: map<StopId, StopInfo>)
    ensures KeyedUpTo(order, stops, 0, map[], [])
  {
    assert order[..0] == [];
  }

  /** Filing one more stop's record under its key. */
  lemma IntKeyedSnoc(order: seq<StopId>, stops: map<StopId, StopInfo>, id: StopId)
    requires AllKnown(order, stops) && id in stops
    ensures AllKnown(order + [id], stops)
    ensures IntKeyed(order + [id], stops) == IntKeyed(order, stops)[IntKeyString(stops, id) := stops[id]]
  {
    assert (order + [id])[..|order|] == order;
  }

  /** Registering one more stop's key. */
  lemma IntKeyOrderSnoc(order: seq<StopId>, stops: map<StopId, StopInfo>, id: StopId)
    requires AllKnown(order, stops) && id in stops && AllKnown(order + [id], stops)
    ensures IntKeyOrder(order + [id], stops) ==
      var d := IntKeyOrder(order, stops);
      if IntKeyString(stops, id) in d then d else d + [IntKeyString(stops, id)]
  {
    assert IntKeyStrings(order + [id], stops) == IntKeyStrings(order, stops) + [IntKeyString(stops, id)];
    DedupSnoc(IntKeyStrings(order, stops), IntKeyString(stops, id));
  }

  /** One more stop: its record is filed under its key, which is registered on first sight. */
  lemma KeyedStep(order: seq<StopId>, stops: map<StopId, StopInfo>, i: nat, next: nat,
                  fixedStops: map<string, StopInfo>, fixedOrder: seq<string>)
    requires i < |order| && next == i + 1 && order[i] in stops && KeyedUpTo(order, stops, i, fixedStops, fixedOrder)
    ensures
      var key := IntKeyString(stops, order[i]);
      KeyedUpTo(order, stops, next, fixedStops[key := stops[order[i]]],
        if key in fixedOrder then fixedOrder else fixedOrder + [key])
  {
    assert order[..i + 1] == order[..i] + [order[i]];
    IntKeyedSnoc(order[..i], stops, order[i]);
    IntKeyOrderSnoc(order[..i], stops, order[i]);
  }

  lemma KeyedEnd(order: seq<StopId>, stops: map<StopId, StopInfo>,
                 fixedStops: map<string, StopInfo>, fixedOrder: seq<string>)
    requires KeyedUpTo(order, stops, |order|, fixedStops, fixedOrder)
    ensures AllKnown(order, stops)
    ensures fixedStops == IntKeyed(order, stops) && fixedOrder == IntKeyOrder(order, stops)
  {
    assert order[..|order|] == order;
  }
}
