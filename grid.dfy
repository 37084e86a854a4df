/**
 * The timetable grid of make_grid as a function of the sorted trips: each
 * trip owns one column, and a per-trip cursor decides where a stop seen for
 * the first time is inserted into the shared row list.
 */
module Grid {
  import opened Common
  import opened TimeFormat
  import opened Schedule

  /** A grid slot: nil, or the [label, flag] pair of format_and_flag_time. */
  type Slot = Option<Flagged>

  /** A timetable row: its stop (native id while building, legacy integer id afterwards), name and one slot per trip. */
  datatype GridRow<K> = GridRow(stopId: K, name: string, times: seq<Slot>)

  type NativeGrid = seq<GridRow<StopId>>

  predicate Rectangular<K>(g: seq<GridRow<K>>, width: nat) {
    forall i :: 0 <= i < |g| ==> |g[i].times| == width
  }

  predicate DistinctStops<K(==)>(g: seq<GridRow<K>>) {
    forall i, j :: 0 <= i < j < |g| ==> g[i].stopId != g[j].stopId
  }

  /** Every row has one slot per trip and no stop has two rows. */
  predicate WellFormed(g: NativeGrid, width: nat) {
    Rectangular(g, width) && DistinctStops(g)
  }

  function RowIds(g: NativeGrid): set<StopId> {
    set i | 0 <= i < |g| :: g[i].stopId
  }

  function StopIds(ss: seq<Stopping>): set<StopId> {
    set i | 0 <= i < |ss| :: ss[i].stopId
  }

  lemma StopIdsCons(ss: seq<Stopping>)
    requires ss != []
    ensures StopIds(ss) == {ss[0].stopId} + StopIds(ss[1..])
  {
    forall id | id in StopIds(ss) ensures id in {ss[0].stopId} + StopIds(ss[1..]) {
      var i :| 0 <= i < |ss| && ss[i].stopId == id;
      if i > 0 {
        assert ss[1..][i - 1] == ss[i];
      }
    }
    forall id | id in StopIds(ss[1..]) ensures id in StopIds(ss) {
      var i :| 0 <= i < |ss[1..]| && ss[1..][i].stopId == id;
      assert ss[i + 1] == ss[1..][i];
    }
  }

  /** Array#detect on the row's stop id: the first row for the stop, if any. */
  function FindRow(g: NativeGrid, id: StopId): (r: Option<nat>)
    ensures r.Some? ==> r.value < |g| && g[r.value].stopId == id
    ensures r.Some? ==> forall j :: 0 <= j < r.value ==> g[j].stopId != id
    ensures r.None? <==> forall j :: 0 <= j < |g| ==> g[j].stopId != id
  {
    if g == [] then None
    else if g[0].stopId == id then Some(0)
    else
      match FindRow(g[1..], id)
      case Some(j) => Some(j + 1)
      case None =>
        assert forall j :: 1 <= j < |g| ==> g[j] == g[1..][j - 1];
        None
  }

  /** In a grid without repeated stops, the scan finds each row at its own position. */
  lemma FindRowAt(g: NativeGrid, i: nat)
    requires DistinctStops(g) && i < |g|
    ensures FindRow(g, g[i].stopId) == Some(i)
  {
  }

  /** The slot of trip column `c` in the row of stop `id`; nil when the stop has no row. */
  function ColumnAt(g: NativeGrid, id: StopId, c: nat): Slot {
    match FindRow(g, id)
    case Some(j) => if c < |g[j].times| then g[j].times[c] else None
    case None => None
  }

  /** Stop `a`'s row comes before stop `b`'s row. */
  predicate Before(g: NativeGrid, a: StopId, b: StopId) {
    FindRow(g, a).Some? && FindRow(g, b).Some? && FindRow(g, a).value < FindRow(g, b).value
  }

  /** Array.new(width) with only this trip's column set. */
  function NewTimes(width: nat, col: nat, slot: Slot): (r: seq<Slot>)
    requires col < width
    ensures |r| == width && r[col] == slot
    ensures forall c :: 0 <= c < width && c != col ==> r[c] == None
  {
    seq(width, c requires 0 <= c < width => if c == col then slot else None)
  }

  lemma InsertAt<T>(s: seq<T>, k: nat, x: T)
    requires k <= |s|
    ensures |s[..k] + [x] + s[k..]| == |s| + 1
    ensures forall i :: 0 <= i < k ==> (s[..k] + [x] + s[k..])[i] == s[i]
    ensures (s[..k] + [x] + s[k..])[k] == x
    ensures forall i :: k <= i < |s| ==> (s[..k] + [x] + s[k..])[i + 1] == s[i]
  {
  }

  /** Two slot arrays of one length that agree outside column `col`. */
  predicate OnlyColumnChanged(before: seq<Slot>, after: seq<Slot>, col: nat) {
    |before| == |after| && forall c :: 0 <= c < |before| && c != col ==> after[c] == before[c]
  }

  /**
   * One stopping of one trip (the body of the inner loop of make_grid): if
   * the stop has a row, write this trip's slot there and move the cursor just
   * past it; otherwise insert a new row at the cursor and move past that. The
   * cursor never passes the end of the grid, so the insert is in bounds.
   */
  function Place(g: NativeGrid, cursor: nat, col: nat, width: nat, s: Stopping, slot: Slot): (r: (NativeGrid, nat))
    requires WellFormed(g, width) && cursor <= |g| && col < width
    ensures WellFormed(r.0, width)
    ensures 1 <= r.1 <= |r.0|
    ensures r.0[r.1 - 1].stopId == s.stopId && r.0[r.1 - 1].times[col] == slot
    ensures RowIds(r.0) == RowIds(g) + {s.stopId}
    ensures s.stopId in RowIds(g) ==>
      && |r.0| == |g|
      && (forall i :: 0 <= i < |g| && i != r.1 - 1 ==> r.0[i] == g[i])
      && r.0[r.1 - 1].name == g[r.1 - 1].name
      && OnlyColumnChanged(g[r.1 - 1].times, r.0[r.1 - 1].times, col)
    ensures s.stopId !in RowIds(g) ==>
      && r.0 == g[..cursor] + [GridRow(s.stopId, s.stopName, NewTimes(width, col, slot))] + g[cursor..]
      && r.1 == cursor + 1
  {
    match FindRow(g, s.stopId)
    case Some(j) =>
      var g' := g[j := g[j].(times := g[j].times[col := slot])];
      assert forall i :: 0 <= i < |g| ==> g'[i].stopId == g[i].stopId;
      assert RowIds(g') == RowIds(g);
      (g', j + 1)
    case None =>
      var row := GridRow(s.stopId, s.stopName, NewTimes(width, col, slot));
      var g' := g[..cursor] + [row] + g[cursor..];
      InsertAt(g, cursor, row);
      assert DistinctStops(g') by {
        forall i, j | 0 <= i < j < |g'| ensures g'[i].stopId != g'[j].stopId {
          if j < cursor {
          } else if i < cursor && j == cursor {
          } else if i < cursor {
            assert g'[j] == g[j - 1];
          } else if i == cursor {
            assert g'[j] == g[j - 1];
          } else {
            assert g'[i] == g[i - 1] && g'[j] == g[j - 1];
          }
        }
      }
      assert RowIds(g') == RowIds(g) + {s.stopId} by {
        forall id | id in RowIds(g) ensures id in RowIds(g') {
          var i :| 0 <= i < |g| && g[i].stopId == id;
          if i < cursor { assert g'[i] == g[i]; } else { assert g'[i + 1] == g[i]; }
        }
        assert g'[cursor] == row;
        forall id | id in RowIds(g') ensures id in RowIds(g) + {s.stopId} {
          var i :| 0 <= i < |g'| && g'[i].stopId == id;
          if i < cursor { assert g'[i] == g[i]; }
          else if i > cursor { assert g'[i] == g[i - 1]; }
        }
      }
      (g', cursor + 1)
  }

  /** The step when the scan finds the stop's row at `j`: the slot is written there and the cursor moves just past it. */
  lemma PlaceFound(g: NativeGrid, cursor: nat, col: nat, width: nat, s: Stopping, slot: Slot, j: nat)
    requires WellFormed(g, width) && cursor <= |g| && col < width && FindRow(g, s.stopId) == Some(j)
    ensures Place(g, cursor, col, width, s, slot) == (g[j := g[j].(times := g[j].times[col := slot])], j + 1)
  {
  }

  /** The step when the scan finds no row: a new row goes in at the cursor and the cursor moves past it. */
  lemma PlaceInserts(g: NativeGrid, cursor: nat, col: nat, width: nat, s: Stopping, slot: Slot)
    requires WellFormed(g, width) && cursor <= |g| && col < width && FindRow(g, s.stopId) == None
    ensures Place(g, cursor, col, width, s, slot) ==
      (g[..cursor] + [GridRow(s.stopId, s.stopName, NewTimes(width, col, slot))] + g[cursor..], cursor + 1)
  {
  }

  /** A step that finds the stop in row `j` keeps the row order and moves the cursor just past row `j`. */
  lemma PlaceFoundIds(g: NativeGrid, cursor: nat, col: nat, width: nat, s: Stopping, slot: Slot, j: nat)
    requires WellFormed(g, width) && cursor <= |g| && col < width && j < |g| && g[j].stopId == s.stopId
    ensures OrderedStopIds(Place(g, cursor, col, width, s, slot).0) == OrderedStopIds(g)
    ensures Place(g, cursor, col, width, s, slot).1 == j + 1
  {
    FindRowAt(g, j);
    PlaceFound(g, cursor, col, width, s, slot, j);
  }

  /** A step for a stop with no row puts its id into the row order at the cursor. */
  lemma PlaceNewIds(g: NativeGrid, cursor: nat, col: nat, width: nat, s: Stopping, slot: Slot)
    requires WellFormed(g, width) && cursor <= |g| && col < width && s.stopId !in RowIds(g)
    ensures OrderedStopIds(Place(g, cursor, col, width, s, slot).0) ==
      OrderedStopIds(g)[..cursor] + [s.stopId] + OrderedStopIds(g)[cursor..]
    ensures Place(g, cursor, col, width, s, slot).1 == cursor + 1
  {
    var r := Place(g, cursor, col, width, s, slot).0;
    var ids := OrderedStopIds(g);
    assert |r| == |g| + 1;
    forall i | 0 <= i < |r| ensures OrderedStopIds(r)[i] == (ids[..cursor] + [s.stopId] + ids[cursor..])[i] {
      if i > cursor {
        assert r[i] == g[i - 1];
      }
    }
  }

  /** A step writes exactly one slot: column `col` of the stopping's stop; no other slot of any row changes. */
  lemma PlaceColumns(g: NativeGrid, cursor: nat, col: nat, width: nat, s: Stopping, slot: Slot)
    requires WellFormed(g, width) && cursor <= |g| && col < width
    ensures forall id, c :: 0 <= c < width ==>
      ColumnAt(Place(g, cursor, col, width, s, slot).0, id, c) ==
        if id == s.stopId && c == col then slot else ColumnAt(g, id, c)
  {
    var g' := Place(g, cursor, col, width, s, slot).0;
    forall id, c | 0 <= c < width
      ensures ColumnAt(g', id, c) == if id == s.stopId && c == col then slot else ColumnAt(g, id, c)
    {
      if s.stopId in RowIds(g) {
        PlaceColumnFound(g, cursor, col, width, s, slot, id, c);
      } else {
        PlaceColumnInserted(g, cursor, col, width, s, slot, id, c);
      }
    }
  }

  lemma PlaceColumnFound(g: NativeGrid, cursor: nat, col: nat, width: nat, s: Stopping, slot: Slot, id: StopId, c: nat)
    requires WellFormed(g, width) && cursor <= |g| && col < width && c < width
    requires s.stopId in RowIds(g)
    ensures ColumnAt(Place(g, cursor, col, width, s, slot).0, id, c) ==
      if id == s.stopId && c == col then slot else ColumnAt(g, id, c)
  {
    var (g', c') := Place(g, cursor, col, width, s, slot);
    if id in RowIds(g) {
      var i :| 0 <= i < |g| && g[i].stopId == id;
      FindRowAt(g, i);
      if i == c' - 1 {
        FindRowAt(g', i);
      } else {
        assert g'[i] == g[i];
        FindRowAt(g', i);
      }
    } else {
      assert FindRow(g', id).None?;
    }
  }

  lemma PlaceColumnInserted(g: NativeGrid, cursor: nat, col: nat, width: nat, s: Stopping, slot: Slot, id: StopId, c: nat)
    requires WellFormed(g, width) && cursor <= |g| && col < width && c < width
    requires s.stopId !in RowIds(g)
    ensures ColumnAt(Place(g, cursor, col, width, s, slot).0, id, c) ==
      if id == s.stopId && c == col then slot else ColumnAt(g, id, c)
  {
    var (g', c') := Place(g, cursor, col, width, s, slot);
    var row := GridRow(s.stopId, s.stopName, NewTimes(width, col, slot));
    InsertAt(g, cursor, row);
    if id == s.stopId {
      FindRowAt(g', cursor);
      assert FindRow(g, id).None?;
    } else if id in RowIds(g) {
      var i :| 0 <= i < |g| && g[i].stopId == id;
      FindRowAt(g, i);
      var i' := if i < cursor then i else i + 1;
      assert g'[i'] == g[i];
      FindRowAt(g', i');
    } else {
      assert FindRow(g', id).None?;
    }
  }

  /** A step never reorders rows that were already placed. */
  lemma PlaceKeepsOrder(g: NativeGrid, cursor: nat, col: nat, width: nat, s: Stopping, slot: Slot, a: StopId, b: StopId)
    requires WellFormed(g, width) && cursor <= |g| && col < width
    requires Before(g, a, b)
    ensures Before(Place(g, cursor, col, width, s, slot).0, a, b)
  {
    var g' := Place(g, cursor, col, width, s, slot).0;
    var i, j := FindRow(g, a).value, FindRow(g, b).value;
    match FindRow(g, s.stopId)
    case Some(k) =>
      PlaceFound(g, cursor, col, width, s, slot, k);
      assert g'[i].stopId == a && g'[j].stopId == b;
      BeforeAt(g', i, j);
    case None =>
      PlaceInserts(g, cursor, col, width, s, slot);
      var i' := if i < cursor then i else i + 1;
      var j' := if j < cursor then j else j + 1;
      assert g'[i'] == g[i] && g'[j'] == g[j];
      BeforeAt(g', i', j');
  }

  /** In a grid without repeated stops, an earlier row's stop comes before a later row's. */
  lemma BeforeAt(g: NativeGrid, i: nat, j: nat)
    requires DistinctStops(g) && i < j < |g|
    ensures Before(g, g[i].stopId, g[j].stopId)
  {
    FindRowAt(g, i);
    FindRowAt(g, j);
  }

  /** The slot the last stopping of a trip at stop `id` leaves; nil when the trip does not stop there. */
  function LastSlot(ss: seq<Stopping>, id: StopId, nowHour: nat, nowMin: nat): (r: Slot)
    requires AllValid(ss)
    ensures id !in StopIds(ss) ==> r == None
  {
    if ss == [] then None
    else
      var last := ss[|ss| - 1];
      assert StopIds(ss) == StopIds(ss[..|ss| - 1]) + {last.stopId} by {
        assert forall i :: 0 <= i < |ss| - 1 ==> ss[..|ss| - 1][i] == ss[i];
      }
      if last.stopId == id then SlotOf(last, nowHour, nowMin)
      else LastSlot(ss[..|ss| - 1], id, nowHour, nowMin)
  }

  lemma {:induction false} LastSlotCons(s: Stopping, ss: seq<Stopping>, id: StopId, nowHour: nat, nowMin: nat)
    requires ValidStopping(s) && AllValid(ss)
    ensures AllValid([s] + ss)
    ensures LastSlot([s] + ss, id, nowHour, nowMin) ==
      if id in StopIds(ss) then LastSlot(ss, id, nowHour, nowMin)
      else if s.stopId == id then SlotOf(s, nowHour, nowMin)
      else None
  {
    var full := [s] + ss;
    assert AllValid(full) by {
      assert forall i :: 1 <= i < |full| ==> full[i] == ss[i - 1];
    }
    if ss != [] {
      var p := ss[..|ss| - 1];
      var last := ss[|ss| - 1];
      assert full[..|full| - 1] == [s] + p;
      assert full[|full| - 1] == last;
      assert AllValid(p);
      LastSlotCons(s, p, id, nowHour, nowMin);
      assert StopIds(ss) == StopIds(p) + {last.stopId} by {
        assert forall i :: 0 <= i < |p| ==> p[i] == ss[i];
      }
    } else {
      assert full[..0] == [];
    }
  }

  /** One trip's stoppings placed in order, starting from `cursor` (the inner loop of make_grid). */
  function MergeTrip(g: NativeGrid, cursor: nat, col: nat, width: nat, ss: seq<Stopping>,
                     nowHour: nat, nowMin: nat): (r: NativeGrid)
    requires WellFormed(g, width) && cursor <= |g| && col < width && AllValid(ss)
    ensures WellFormed(r, width)
    ensures RowIds(r) == RowIds(g) + StopIds(ss)
    decreases |ss|
  {
    if ss == [] then g
    else
      var (g', c') := Place(g, cursor, col, width, ss[0], SlotOf(ss[0], nowHour, nowMin));
      StopIdsCons(ss);
      MergeTrip(g', c', col, width, ss[1..], nowHour, nowMin)
  }

  /**
   * Placing a trip fills its own column with the slot of its last stopping at
   * each stop it visits and changes nothing else: other columns, and this
   * column at stops the trip does not visit, stay as they were.
   */
  lemma {:induction false} MergeTripColumns(g: NativeGrid, cursor: nat, col: nat, width: nat, ss: seq<Stopping>,
                                            nowHour: nat, nowMin: nat)
    requires WellFormed(g, width) && cursor <= |g| && col < width && AllValid(ss)
    ensures forall id, c :: 0 <= c < width ==>
      ColumnAt(MergeTrip(g, cursor, col, width, ss, nowHour, nowMin), id, c) ==
        if c == col && id in StopIds(ss) then LastSlot(ss, id, nowHour, nowMin) else ColumnAt(g, id, c)
    decreases |ss|
  {
    if ss != [] {
      var slot := SlotOf(ss[0], nowHour, nowMin);
      var (g', c') := Place(g, cursor, col, width, ss[0], slot);
      PlaceColumns(g, cursor, col, width, ss[0], slot);
      MergeTripColumns(g', c', col, width, ss[1..], nowHour, nowMin);
      StopIdsCons(ss);
      assert ss == [ss[0]] + ss[1..];
      forall id {
        LastSlotCons(ss[0], ss[1..], id, nowHour, nowMin);
      }
    }
  }

  /** Placing a trip never reorders rows that were already placed. */
  lemma {:induction false} MergeTripKeepsOrder(g: NativeGrid, cursor: nat, col: nat, width: nat, ss: seq<Stopping>,
                                               nowHour: nat, nowMin: nat, a: StopId, b: StopId)
    requires WellFormed(g, width) && cursor <= |g| && col < width && AllValid(ss)
    requires Before(g, a, b)
    ensures Before(MergeTrip(g, cursor, col, width, ss, nowHour, nowMin), a, b)
    decreases |ss|
  {
    if ss != [] {
      var slot := SlotOf(ss[0], nowHour, nowMin);
      var (g', c') := Place(g, cursor, col, width, ss[0], slot);
      PlaceKeepsOrder(g, cursor, col, width, ss[0], slot, a, b);
      MergeTripKeepsOrder(g', c', col, width, ss[1..], nowHour, nowMin, a, b);
    }
  }

  predicate AllTripsValid(trips: seq<seq<Stopping>>) {
    forall k :: 0 <= k < |trips| ==> AllValid(trips[k])
  }

  /** One step of the merge: place the first stopping, then merge the rest from the new cursor. */
  lemma MergeTripStep(g: NativeGrid, cursor: nat, col: nat, width: nat, ss: seq<Stopping>, nowHour: nat, nowMin: nat)
    requires WellFormed(g, width) && cursor <= |g| && col < width && AllValid(ss) && ss != []
    ensures var p := Place(g, cursor, col, width, ss[0], SlotOf(ss[0], nowHour, nowMin));
      MergeTrip(g, cursor, col, width, ss, nowHour, nowMin) == MergeTrip(p.0, p.1, col, width, ss[1..], nowHour, nowMin)
  {
  }

  /** The stops visited by trips k, k+1, ... */
  function StopIdsFrom(trips: seq<seq<Stopping>>, k: nat): set<StopId>
    decreases |trips| - k
  {
    if k >= |trips| then {} else StopIds(trips[k]) + StopIdsFrom(trips, k + 1)
  }

  /** Trips k, k+1, ... placed in turn, trip j in column j, each starting with its cursor at 0 (the outer loop). */
  function BuildFrom(g: NativeGrid, trips: seq<seq<Stopping>>, k: nat, nowHour: nat, nowMin: nat): (r: NativeGrid)
    requires k <= |trips| && WellFormed(g, |trips|) && AllTripsValid(trips)
    ensures WellFormed(r, |trips|)
    ensures RowIds(r) == RowIds(g) + StopIdsFrom(trips, k)
    decreases |trips| - k
  {
    if k == |trips| then g
    else BuildFrom(MergeTrip(g, 0, k, |trips|, trips[k], nowHour, nowMin), trips, k + 1, nowHour, nowMin)
  }

  /**
   * make_grid's rows for the sorted trips: one slot per trip in every row,
   * one row per stop, and a row for exactly the stops some trip visits.
   */
  function BuildGrid(trips: seq<seq<Stopping>>, nowHour: nat, nowMin: nat): (r: NativeGrid)
    requires AllTripsValid(trips)
    ensures Rectangular(r, |trips|) && DistinctStops(r)
    ensures RowIds(r) == StopIdsFrom(trips, 0)
  {
    BuildFrom([], trips, 0, nowHour, nowMin)
  }

  /** Columns before k hold their trips' slots; columns from k on are still empty. */
  ghost predicate ColumnsFilled(g: NativeGrid, trips: seq<seq<Stopping>>, k: nat, nowHour: nat, nowMin: nat)
    requires k <= |trips| && AllTripsValid(trips)
  {
    && (forall id, c :: 0 <= c < k ==> ColumnAt(g, id, c) == LastSlot(trips[c], id, nowHour, nowMin))
    && (forall id, c :: k <= c < |trips| ==> ColumnAt(g, id, c) == None)
  }

  lemma {:induction false} BuildFromColumns(g: NativeGrid, trips: seq<seq<Stopping>>, k: nat, nowHour: nat, nowMin: nat)
    requires k <= |trips| && WellFormed(g, |trips|) && AllTripsValid(trips)
    requires ColumnsFilled(g, trips, k, nowHour, nowMin)
    ensures ColumnsFilled(BuildFrom(g, trips, k, nowHour, nowMin), trips, |trips|, nowHour, nowMin)
    decreases |trips| - k
  {
    if k < |trips| {
      var g' := MergeNextColumn(g, trips, k, nowHour, nowMin);
      BuildFromColumns(g', trips, k + 1, nowHour, nowMin);
    } else {
      BuildFromDone(g, trips, nowHour, nowMin);
    }
  }

  /** With every trip merged, the build adds nothing more. */
  lemma BuildFromDone(g: NativeGrid, trips: seq<seq<Stopping>>, nowHour: nat, nowMin: nat)
    requires WellFormed(g, |trips|) && AllTripsValid(trips)
    ensures BuildFrom(g, trips, |trips|, nowHour, nowMin) == g
  {
  }

  /** Merging trip k fills column k with its slots and leaves the other columns as they were. */
  lemma MergeNextColumn(g: NativeGrid, trips: seq<seq<Stopping>>, k: nat, nowHour: nat, nowMin: nat)
    returns (g': NativeGrid)
    requires k < |trips| && WellFormed(g, |trips|) && AllTripsValid(trips)
    requires ColumnsFilled(g, trips, k, nowHour, nowMin)
    ensures WellFormed(g', |trips|) && ColumnsFilled(g', trips, k + 1, nowHour, nowMin)
    ensures BuildFrom(g, trips, k, nowHour, nowMin) == BuildFrom(g', trips, k + 1, nowHour, nowMin)
  {
    g' := MergeTrip(g, 0, k, |trips|, trips[k], nowHour, nowMin);
    MergeTripColumns(g, 0, k, |trips|, trips[k], nowHour, nowMin);
  }

  /** Column k of the grid holds, at each stop, the slot of trip k's last stopping there, and nil where trip k does not stop. */
  lemma BuildGridColumns(trips: seq<seq<Stopping>>, nowHour: nat, nowMin: nat)
    requires AllTripsValid(trips)
    ensures forall id, k :: 0 <= k < |trips| ==>
      ColumnAt(BuildGrid(trips, nowHour, nowMin), id, k) == LastSlot(trips[k], id, nowHour, nowMin)
  {
    BuildFromColumns([], trips, 0, nowHour, nowMin);
  }

  /** The same, row by row: slot k of a row is trip k's time at that row's stop. */
  lemma BuildGridSlots(trips: seq<seq<Stopping>>, nowHour: nat, nowMin: nat)
    requires AllTripsValid(trips)
    ensures var g := BuildGrid(trips, nowHour, nowMin);
      forall i, k :: 0 <= i < |g| && 0 <= k < |trips| ==>
        g[i].times[k] == LastSlot(trips[k], g[i].stopId, nowHour, nowMin)
  {
    var g := BuildGrid(trips, nowHour, nowMin);
    BuildGridColumns(trips, nowHour, nowMin);
    forall i | 0 <= i < |g| {
      FindRowAt(g, i);
    }
  }

  predicate AllTimesPresent(trips: seq<seq<Stopping>>) {
    forall k, i :: 0 <= k < |trips| && 0 <= i < |trips[k]| ==> trips[k][i].arrivalTime.Some?
  }

  lemma {:induction false} LastSlotPresent(ss: seq<Stopping>, id: StopId, nowHour: nat, nowMin: nat)
    requires AllValid(ss) && forall i :: 0 <= i < |ss| ==> ss[i].arrivalTime.Some?
    ensures LastSlot(ss, id, nowHour, nowMin).Some? <==> id in StopIds(ss)
  {
    if ss != [] {
      var p := ss[..|ss| - 1];
      LastSlotPresent(p, id, nowHour, nowMin);
      assert StopIds(ss) == StopIds(p) + {ss[|ss| - 1].stopId} by {
        assert forall i :: 0 <= i < |p| ==> p[i] == ss[i];
      }
    }
  }

  /** When every stopping has a time, trip k's slot in a row is filled exactly when trip k stops at that row's stop. */
  lemma SlotFilledIffVisited(trips: seq<seq<Stopping>>, nowHour: nat, nowMin: nat)
    requires AllTripsValid(trips) && AllTimesPresent(trips)
    ensures var g := BuildGrid(trips, nowHour, nowMin);
      forall i, k :: 0 <= i < |g| && 0 <= k < |trips| ==>
        (g[i].times[k].Some? <==> g[i].stopId in StopIds(trips[k]))
  {
    var g := BuildGrid(trips, nowHour, nowMin);
    BuildGridSlots(trips, nowHour, nowMin);
    forall i, k | 0 <= i < |g| && 0 <= k < |trips| {
      LastSlotPresent(trips[k], g[i].stopId, nowHour, nowMin);
    }
  }

  /** ordered_stop_ids: the grid's stop ids from top to bottom. */
  function OrderedStopIds<K>(g: seq<GridRow<K>>): (r: seq<K>)
    ensures |r| == |g| && forall i :: 0 <= i < |g| ==> r[i] == g[i].stopId
  {
    seq(|g|, i requires 0 <= i < |g| => g[i].stopId)
  }

  /**
   * Two trips sharing their first stop: trip A visits X then Y, trip B visits
   * X then Z. B finds X in row 0, so its cursor moves to 1 and Z goes in
   * between: the rows are X, Z, Y, whatever the times and the current time.
   */
  lemma BranchOrder(a: seq<Stopping>, b: seq<Stopping>, nowHour: nat, nowMin: nat)
    requires AllValid(a) && AllValid(b) && |a| == 2 && |b| == 2
    requires a[0].stopId == b[0].stopId
    requires a[1].stopId != a[0].stopId && b[1].stopId != a[0].stopId && b[1].stopId != a[1].stopId
    ensures AllTripsValid([a, b])
    ensures OrderedStopIds(BuildGrid([a, b], nowHour, nowMin)) == [a[0].stopId, b[1].stopId, a[1].stopId]
  {
    var ts := [a, b];
    assert AllTripsValid(ts);
    var ga := MergeTrip([], 0, 0, 2, a, nowHour, nowMin);
    BranchFirstTrip(a, nowHour, nowMin);
    BranchSecondTrip(ga, b, nowHour, nowMin);
    var gb := MergeTrip(ga, 0, 1, 2, b, nowHour, nowMin);
    assert BuildFrom([], ts, 0, nowHour, nowMin) == BuildFrom(ga, ts, 1, nowHour, nowMin);
    assert BuildFrom(ga, ts, 1, nowHour, nowMin) == BuildFrom(gb, ts, 2, nowHour, nowMin);
    assert BuildFrom(gb, ts, 2, nowHour, nowMin) == gb;
  }

  lemma BranchFirstTrip(a: seq<Stopping>, nowHour: nat, nowMin: nat)
    requires AllValid(a) && |a| == 2 && a[0].stopId != a[1].stopId
    ensures OrderedStopIds(MergeTrip([], 0, 0, 2, a, nowHour, nowMin)) == [a[0].stopId, a[1].stopId]
  {
    var s1, s2 := SlotOf(a[0], nowHour, nowMin), SlotOf(a[1], nowHour, nowMin);
    var p1 := Place([], 0, 0, 2, a[0], s1);
    PlaceNewIds([], 0, 0, 2, a[0], s1);
    MergeTripStep([], 0, 0, 2, a, nowHour, nowMin);
    PlaceNewIds(p1.0, p1.1, 0, 2, a[1], s2);
    MergeTripStep(p1.0, p1.1, 0, 2, a[1..], nowHour, nowMin);
    assert a[1..][1..] == [];
  }

  lemma BranchSecondTrip(g: NativeGrid, b: seq<Stopping>, nowHour: nat, nowMin: nat)
    requires WellFormed(g, 2) && |g| == 2 && AllValid(b) && |b| == 2
    requires b[0].stopId == g[0].stopId && b[1].stopId != g[0].stopId && b[1].stopId != g[1].stopId
    ensures OrderedStopIds(MergeTrip(g, 0, 1, 2, b, nowHour, nowMin)) == [g[0].stopId, b[1].stopId, g[1].stopId]
  {
    var s3, s4 := SlotOf(b[0], nowHour, nowMin), SlotOf(b[1], nowHour, nowMin);
    var p3 := Place(g, 0, 1, 2, b[0], s3);
    PlaceFoundIds(g, 0, 1, 2, b[0], s3, 0);
    MergeTripStep(g, 0, 1, 2, b, nowHour, nowMin);
    PlaceNewIds(p3.0, p3.1, 1, 2, b[1], s4);
    MergeTripStep(p3.0, p3.1, 1, 2, b[1..], nowHour, nowMin);
    assert b[1..][1..] == [];
  }
}
