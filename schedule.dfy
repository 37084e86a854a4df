/**
 * The records the timetable is built from: stop time rows (stoppings),
 * stop metadata rows and the per-stop records, with the grouping of rows
 * into trips and the per-trip sort by stop_sequence.
 */
module Schedule {
  import opened Common
  import opened TimeFormat

  type StopId = string
  type TripId = string

  /** One row of the stop-times query: one scheduled visit of one trip to one stop. */
  datatype Stopping = Stopping(
    arrivalTime: Option<string>,
    stopName: string,
    stopSequence: int,
    stopId: StopId,
    tripId: TripId)

  /** A present arrival time has the "HH:MM:SS" shape the formatter reads. */
  predicate ValidStopping(s: Stopping) {
    s.arrivalTime.Some? ==> ValidTime(s.arrivalTime.value)
  }

  /** One row of the stops query. */
  datatype StopMeta = StopMeta(
    stopId: StopId,
    stopName: string,
    stopIntegerId: nat,
    parentStation: Option<string>,
    stopLat: real,
    stopLon: real)

  /** One entry of a stop's next_arrivals list: [time label, trip_id]. */
  datatype Arrival = Arrival(text: string, tripId: TripId)

  /** The per-stop record built by convert_stop_data and extended with next arrivals. */
  datatype StopInfo = StopInfo(
    name: string,
    stopIntegerId: nat,
    parentStopMbtaId: Option<string>,
    mbtaId: StopId,
    lat: real,
    lng: real,
    nextArrivals: seq<Arrival>)

  predicate AllValid(ss: seq<Stopping>) {
    forall i :: 0 <= i < |ss| ==> ValidStopping(ss[i])
  }

  /** Every stopping has a well-formed time and a stop record to write to. */
  predicate Supported(ss: seq<Stopping>, stops: map<StopId, StopInfo>) {
    forall i :: 0 <= i < |ss| ==> ValidStopping(ss[i]) && ss[i].stopId in stops
  }

  /** Every trip of `ts` is supported by `stops`. */
  predicate EachSupported(ts: seq<seq<Stopping>>, stops: map<StopId, StopInfo>) {
    forall k :: 0 <= k < |ts| ==> Supported(ts[k], stops)
  }

  /** The grid slot and flag of a stopping: format_and_flag_time of its arrival time. */
  function SlotOf(s: Stopping, nowHour: nat, nowMin: nat): Option<Flagged>
    requires ValidStopping(s)
  {
    FormatAndFlagTime(s.arrivalTime, nowHour, nowMin)
  }

  /** null_or_value: nil for nil or the empty string, the value otherwise. */
  function NullOrValue(x: Option<string>): (r: Option<string>)
    ensures r.None? <==> (x.None? || x.value == "")
    ensures r.Some? ==> r == x
  {
    if x.None? || x.value == "" then None else x
  }

  /** convert_stop_data: the stop record for a metadata row, with an empty arrivals list. */
  function ConvertStopData(m: StopMeta): (r: StopInfo)
    ensures r.name == m.stopName && r.stopIntegerId == m.stopIntegerId && r.mbtaId == m.stopId
    ensures r.lat == m.stopLat && r.lng == m.stopLon
    ensures r.nextArrivals == []
    ensures r.parentStopMbtaId != Some("")
    ensures r.parentStopMbtaId.Some? <==> (m.parentStation.Some? && m.parentStation.value != "")
  {
    StopInfo(m.stopName, m.stopIntegerId, NullOrValue(m.parentStation), m.stopId,
             m.stopLat, m.stopLon, [])
  }

  // ---------------------------------------------------------------------
  // Grouping the stop time rows into trips

  function TripIds(rows: seq<Stopping>): (r: seq<TripId>)
    ensures |r| == |rows| && forall i :: 0 <= i < |rows| ==> r[i] == rows[i].tripId
  {
    seq(|rows|, i requires 0 <= i < |rows| => rows[i].tripId)
  }

  function RowStopIds(rows: seq<Stopping>): (r: seq<StopId>)
    ensures |r| == |rows| && forall i :: 0 <= i < |rows| ==> r[i] == rows[i].stopId
  {
    seq(|rows|, i requires 0 <= i < |rows| => rows[i].stopId)
  }

  /** The trips in the order their ids first appear among the rows (the Hash's key order). */
  function TripOrder(rows: seq<Stopping>): (r: seq<TripId>)
    ensures Distinct(r)
    ensures forall t :: t in r <==> t in TripIds(rows)
  {
    DedupDistinct(TripIds(rows));
    Dedup(TripIds(rows))
  }

  /** The rows of one trip, in row order. */
  function RowsOfTrip(rows: seq<Stopping>, t: TripId): (r: seq<Stopping>)
    ensures forall i :: 0 <= i < |r| ==> r[i].tripId == t && r[i] in rows
    ensures |r| <= |rows|
  {
    if rows == [] then []
    else
      var p := RowsOfTrip(rows[..|rows| - 1], t);
      if rows[|rows| - 1].tripId == t then p + [rows[|rows| - 1]] else p
  }

  /** No row is lost: each row sits in its own trip's group, and a group is non-empty exactly for the trips that occur. */
  lemma {:induction false} GroupsCoverRows(rows: seq<Stopping>, t: TripId)
    ensures forall i :: 0 <= i < |rows| && rows[i].tripId == t ==> rows[i] in RowsOfTrip(rows, t)
    ensures RowsOfTrip(rows, t) != [] <==> t in TripIds(rows)
  {
    if rows != [] {
      var p := rows[..|rows| - 1];
      GroupsCoverRows(p, t);
      assert forall i :: 0 <= i < |p| ==> p[i] == rows[i];
      assert TripIds(rows) == TripIds(p) + [rows[|rows| - 1].tripId];
    }
  }

  /** The rows of each trip, in row order, for the metadata-free part of loading. */
  lemma RowsOfTripSnoc(rows: seq<Stopping>, s: Stopping, t: TripId)
    ensures RowsOfTrip(rows + [s], t) == if s.tripId == t then RowsOfTrip(rows, t) + [s] else RowsOfTrip(rows, t)
  {
    assert (rows + [s])[..|rows|] == rows;
  }

  /**
   * @trips after the row loop: each trip id that occurs, with its rows in
   * row order.
   */
  function Groups(rows: seq<Stopping>): (g: map<TripId, seq<Stopping>>)
    ensures forall t :: t in g <==> t in TripIds(rows)
    ensures forall t :: t in g ==> g[t] == RowsOfTrip(rows, t)
  {
    map t | t in TripIds(rows) :: RowsOfTrip(rows, t)
  }

  /** One more row is appended to its trip's group, which is created empty when the trip is new. */
  lemma GroupsSnoc(rows: seq<Stopping>, s: Stopping)
    ensures TripIds(rows + [s]) == TripIds(rows) + [s.tripId]
    ensures Groups(rows + [s]) ==
      Groups(rows)[s.tripId := (if s.tripId in Groups(rows) then Groups(rows)[s.tripId] else []) + [s]]
  {
    assert TripIds(rows + [s]) == TripIds(rows) + [s.tripId];
    var g, g' := Groups(rows), Groups(rows + [s]);
    var h := g[s.tripId := (if s.tripId in g then g[s.tripId] else []) + [s]];
    forall t | t in g' ensures t in h && g'[t] == h[t] {
      RowsOfTripSnoc(rows, s, t);
      GroupsCoverRows(rows, t);
    }
    assert g'.Keys == h.Keys;
  }

  /** The stop records built from the metadata rows; a later row for the same stop replaces an earlier one. */
  function MetaMap(meta: seq<StopMeta>): (m: map<StopId, StopInfo>)
    ensures forall i :: 0 <= i < |meta| ==> meta[i].stopId in m
    ensures forall id :: id in m ==> m[id].nextArrivals == [] && m[id].mbtaId == id
  {
    if meta == [] then map[]
    else
      var last := meta[|meta| - 1];
      MetaMap(meta[..|meta| - 1])[last.stopId := ConvertStopData(last)]
  }

  /** Each stop record is built from the last metadata row for its stop: the records are keyed by the metadata's stops and nothing else. */
  lemma {:induction false} MetaMapFromLastRow(meta: seq<StopMeta>, id: StopId) returns (i: nat)
    requires id in MetaMap(meta)
    ensures i < |meta| && meta[i].stopId == id && MetaMap(meta)[id] == ConvertStopData(meta[i])
    ensures forall j :: i < j < |meta| ==> meta[j].stopId != id
  {
    var p, last := meta[..|meta| - 1], meta[|meta| - 1];
    if last.stopId == id {
      i := |meta| - 1;
    } else {
      i := MetaMapFromLastRow(p, id);
      assert meta[i] == p[i];
      assert forall j :: i < j < |meta| - 1 ==> meta[j] == p[j];
    }
  }

  function MetaStopIds(meta: seq<StopMeta>): (r: seq<StopId>)
    ensures |r| == |meta| && forall i :: 0 <= i < |meta| ==> r[i] == meta[i].stopId
  {
    seq(|meta|, i requires 0 <= i < |meta| => meta[i].stopId)
  }

  // ---------------------------------------------------------------------
  // sort_by stop_sequence

  predicate SortedBySequence(ss: seq<Stopping>) {
    forall i, j :: 0 <= i < j < |ss| ==> ss[i].stopSequence <= ss[j].stopSequence
  }

  predicate DistinctSequences(ss: seq<Stopping>) {
    forall i, j :: 0 <= i < j < |ss| ==> ss[i].stopSequence != ss[j].stopSequence
  }

  /** `s` placed in front of the first stopping with a stop_sequence not below its own. */
  function InsertBySequence(s: Stopping, ss: seq<Stopping>): (r: seq<Stopping>)
    ensures multiset(r) == multiset(ss) + multiset{s}
  {
    if ss == [] then [s]
    else if s.stopSequence <= ss[0].stopSequence then [s] + ss
    else
      assert ss == [ss[0]] + ss[1..];
      [ss[0]] + InsertBySequence(s, ss[1..])
  }

  /** Insertion into a sorted sequence keeps it sorted and adds exactly the one stopping. */
  lemma {:induction false} InsertBySequenceSorts(s: Stopping, ss: seq<Stopping>)
    requires SortedBySequence(ss)
    ensures SortedBySequence(InsertBySequence(s, ss))
    ensures multiset(InsertBySequence(s, ss)) == multiset(ss) + multiset{s}
    ensures |InsertBySequence(s, ss)| == |ss| + 1
  {
    if ss != [] && s.stopSequence > ss[0].stopSequence {
      var rest := InsertBySequence(s, ss[1..]);
      assert ss == [ss[0]] + ss[1..];
      InsertBySequenceSorts(s, ss[1..]);
      HeadBelowRest(ss[0], s, ss[1..], rest);
    }
  }

  /** A stopping below every element of a sorted sequence can go in front of any of its rearrangements. */
  lemma HeadBelowRest(h: Stopping, s: Stopping, tail: seq<Stopping>, rest: seq<Stopping>)
    requires SortedBySequence([h] + tail) && h.stopSequence < s.stopSequence
    requires SortedBySequence(rest) && multiset(rest) == multiset(tail) + multiset{s}
    ensures SortedBySequence([h] + rest)
  {
    forall j | 0 <= j < |rest|
      ensures h.stopSequence <= rest[j].stopSequence
    {
      assert rest[j] in multiset(rest);
      if rest[j] != s {
        assert rest[j] in multiset(tail);
        var i :| 0 <= i < |tail| && tail[i] == rest[j];
        assert ([h] + tail)[i + 1] == rest[j] && ([h] + tail)[0] == h;
      }
    }
  }

  /** sort_by { stop_sequence }: the trip's stoppings reordered by ascending stop_sequence. */
  function SortBySequence(ss: seq<Stopping>): (r: seq<Stopping>)
    ensures multiset(r) == multiset(ss)
  {
    if ss == [] then []
    else
      assert ss == [ss[0]] + ss[1..];
      InsertBySequence(ss[0], SortBySequence(ss[1..]))
  }

  /** The sort gives a sorted rearrangement of the trip's stoppings. */
  lemma {:induction false} SortBySequenceSorts(ss: seq<Stopping>)
    ensures SortedBySequence(SortBySequence(ss))
    ensures multiset(SortBySequence(ss)) == multiset(ss)
    ensures |SortBySequence(ss)| == |ss|
  {
    if ss != [] {
      assert ss == [ss[0]] + ss[1..];
      SortBySequenceSorts(ss[1..]);
      InsertBySequenceSorts(ss[0], SortBySequence(ss[1..]));
    }
  }

  /**
   * With distinct stop_sequence values the sorted order is unique: any
   * sort, stable or not, gives the order SortBySequence gives.
   */
  lemma {:induction false} SortedOrderIsUnique(a: seq<Stopping>, b: seq<Stopping>)
    requires SortedBySequence(a) && SortedBySequence(b)
    requires multiset(a) == multiset(b) && DistinctSequences(a)
    ensures a == b
  {
    assert |a| == |b| by {
      assert |multiset(a)| == |a| && |multiset(b)| == |b|;
    }
    if a != [] {
      SortedHeadsAgree(a, b);
      TailsAgree(a, b);
      SortedTail(a);
      SortedTail(b);
      SortedOrderIsUnique(a[1..], b[1..]);
      assert a == [a[0]] + a[1..] && b == [b[0]] + b[1..];
    }
  }

  lemma TailsAgree(a: seq<Stopping>, b: seq<Stopping>)
    requires a != [] && b != [] && a[0] == b[0] && multiset(a) == multiset(b)
    ensures multiset(a[1..]) == multiset(b[1..])
  {
    assert a == [a[0]] + a[1..] && b == [b[0]] + b[1..];
    assert multiset(a[1..]) == multiset(a) - multiset{a[0]};
    assert multiset(b[1..]) == multiset(b) - multiset{b[0]};
  }

  lemma SortedTail(a: seq<Stopping>)
    requires a != [] && SortedBySequence(a)
    ensures SortedBySequence(a[1..])
    ensures DistinctSequences(a) ==> DistinctSequences(a[1..])
  {
  }

  lemma SortedHeadsAgree(a: seq<Stopping>, b: seq<Stopping>)
    requires SortedBySequence(a) && SortedBySequence(b)
    requires multiset(a) == multiset(b) && DistinctSequences(a)
    requires a != [] && b != []
    ensures a[0] == b[0]
  {
    assert a[0] in multiset(b);
    var k :| 0 <= k < |b| && b[k] == a[0];
    assert b[0] in multiset(a);
    var m :| 0 <= m < |a| && a[m] == b[0];
    assert b[0].stopSequence <= b[k].stopSequence;
    assert a[0].stopSequence <= a[m].stopSequence;
  }

  /** The first sorted stopping of a trip has its lowest stop_sequence. */
  lemma SortedFirstIsLowest(ss: seq<Stopping>)
    requires ss != []
    ensures SortBySequence(ss) != []
    ensures forall i :: 0 <= i < |ss| ==> SortBySequence(ss)[0].stopSequence <= ss[i].stopSequence
  {
    var r := SortBySequence(ss);
    SortBySequenceSorts(ss);
    forall i | 0 <= i < |ss| ensures r[0].stopSequence <= ss[i].stopSequence {
      assert ss[i] in multiset(r);
    }
  }

  // ---------------------------------------------------------------------
  // The trips as make_grid sees them

  /** Each trip's stoppings sorted by stop_sequence, in trip order: column k is trip k. */
  function SortedGroups(order: seq<TripId>, groups: map<TripId, seq<Stopping>>): (r: seq<seq<Stopping>>)
    requires forall k :: 0 <= k < |order| ==> order[k] in groups
    ensures |r| == |order|
    ensures forall k :: 0 <= k < |order| ==> r[k] == SortBySequence(groups[order[k]])
  {
    seq(|order|, k requires 0 <= k < |order| => SortBySequence(groups[order[k]]))
  }

  /** All stoppings in processing order: trip by trip, each in its sorted order. */
  function Flatten(ts: seq<seq<Stopping>>): seq<Stopping> {
    if ts == [] then [] else Flatten(ts[..|ts| - 1]) + ts[|ts| - 1]
  }

  lemma {:induction false} FlattenSupported(ts: seq<seq<Stopping>>, stops: map<StopId, StopInfo>)
    requires forall k :: 0 <= k < |ts| ==> Supported(ts[k], stops)
    ensures Supported(Flatten(ts), stops)
  {
    if ts != [] {
      FlattenSupported(ts[..|ts| - 1], stops);
    }
  }

  /** The name of each trip's first stopping, trip by trip (empty trips contribute nothing). */
  function FirstNames(ts: seq<seq<Stopping>>): seq<string> {
    if ts == [] then []
    else
      var last := ts[|ts| - 1];
      FirstNames(ts[..|ts| - 1]) + (if last != [] then [last[0].stopName] else [])
  }

  /** Sorting keeps the stoppings of a supported trip supported. */
  lemma SortSupported(ss: seq<Stopping>, stops: map<StopId, StopInfo>)
    requires Supported(ss, stops)
    ensures Supported(SortBySequence(ss), stops)
  {
    var r := SortBySequence(ss);
    SortBySequenceSorts(ss);
    forall i | 0 <= i < |r| ensures ValidStopping(r[i]) && r[i].stopId in stops {
      assert r[i] in multiset(ss);
    }
  }
}
