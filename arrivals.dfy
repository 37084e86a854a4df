/**
 * add_next_arrival: each stop keeps a list of at most four upcoming
 * [label, trip] pairs, and each trip remembers the first stop and time
 * at which one of its arrivals was listed (the "imminent" map). The
 * tracker state is stepped once per stopping, in make_grid's order; the
 * closed forms below say what any run of steps from the initial state
 * leaves behind.
 */
module Arrivals {
  import opened Common
  import opened Text
  import opened TimeFormat
  import opened Schedule

  /** The cap on a stop's next_arrivals list. */
  const NEXT_ARRIVALS_MAX: nat := 4

  /** A trip's imminent entry: the [stop_id, raw time] of its first listed arrival. */
  datatype Imminent = Imminent(stopId: StopId, time: string)

  /**
   * The state add_next_arrival updates: the stop records (each with its
   * next_arrivals list), and the imminent map with its keys in insertion
   * order.
   */
  datatype Tracker = Tracker(stops: map<StopId, StopInfo>, imminentOrder: seq<TripId>, imminent: map<TripId, Imminent>)

  /** The key order lists each key of the imminent map exactly once. */
  predicate OrderMatches(t: Tracker) {
    Distinct(t.imminentOrder) && t.imminent.Keys == set k | k in t.imminentOrder
  }

  /** Every imminent entry names a stop that has a record. */
  predicate KnownStops(t: Tracker) {
    forall k :: k in t.imminent ==> t.imminent[k].stopId in t.stops
  }

  /** The state right after the stop records are loaded: empty lists and no imminent entries. */
  predicate Initial(t: Tracker) {
    && t.imminent == map[]
    && t.imminentOrder == []
    && forall id :: id in t.stops ==> t.stops[id].nextArrivals == []
  }

  /** format_and_flag_time gives the flag 1: a present time not yet passed. */
  predicate InFuture(time: Option<string>, nowHour: nat, nowMin: nat)
    requires time.Some? ==> ValidTime(time.value)
    ensures InFuture(time, nowHour, nowMin) ==> time.Some?
  {
    var f := FormatAndFlagTime(time, nowHour, nowMin);
    f.Some? && f.value.flag == 1
  }

  /** The list entry for an arrival: its label and its trip. */
  function ArrivalOf(s: Stopping): (r: Arrival)
    requires ValidStopping(s) && s.arrivalTime.Some?
    ensures r.tripId == s.tripId
    ensures HourOf(s.arrivalTime.value) <= 35 ==>
      ParseLabel(r.text) == Some(DayTime(HourOf(s.arrivalTime.value) % 24, MinuteField(s.arrivalTime.value)))
  {
    Arrival(FormatTime(s.arrivalTime.value), s.tripId)
  }

  /** Whether a call appends: the stop's list is not full and the time is still to come. */
  predicate Records(t: Tracker, stopId: StopId, time: Option<string>, nowHour: nat, nowMin: nat)
    requires stopId in t.stops && (time.Some? ==> ValidTime(time.value))
    ensures Records(t, stopId, time, nowHour, nowMin) ==>
      && |t.stops[stopId].nextArrivals| < NEXT_ARRIVALS_MAX
      && time.Some? && !LexLess(time.value[..5], NowString(nowHour, nowMin))
  {
    |t.stops[stopId].nextArrivals| < NEXT_ARRIVALS_MAX && InFuture(time, nowHour, nowMin)
  }

  /**
   * One call of add_next_arrival. A full list returns at once and nothing
   * changes; otherwise a future arrival is appended to its stop's list and,
   * if its trip has no imminent entry yet, becomes that entry. No other stop
   * changes and an existing imminent entry is never overwritten.
   */
  function Step(t: Tracker, stopId: StopId, time: Option<string>, tripId: TripId,
                nowHour: nat, nowMin: nat): (r: Tracker)
    requires stopId in t.stops && (time.Some? ==> ValidTime(time.value))
    ensures r.stops.Keys == t.stops.Keys
    ensures forall id :: id in t.stops && id != stopId ==> r.stops[id] == t.stops[id]
    ensures |t.stops[stopId].nextArrivals| >= NEXT_ARRIVALS_MAX ==> r == t
    ensures !InFuture(time, nowHour, nowMin) ==> r == t
    ensures r.stops[stopId].(nextArrivals := []) == t.stops[stopId].(nextArrivals := [])
    ensures Records(t, stopId, time, nowHour, nowMin) ==>
      r.stops[stopId].nextArrivals == t.stops[stopId].nextArrivals + [Arrival(FormatTime(time.value), tripId)]
    ensures forall k :: k in t.imminent ==> k in r.imminent && r.imminent[k] == t.imminent[k]
    ensures r.imminent.Keys == t.imminent.Keys + if Records(t, stopId, time, nowHour, nowMin) then {tripId} else {}
    ensures Records(t, stopId, time, nowHour, nowMin) && tripId !in t.imminent ==>
      r.imminent == t.imminent[tripId := Imminent(stopId, time.value)] &&
      r.imminentOrder == t.imminentOrder + [tripId]
    ensures (tripId in t.imminent || !Records(t, stopId, time, nowHour, nowMin)) ==>
      r.imminentOrder == t.imminentOrder && r.imminent == t.imminent
    ensures KnownStops(t) ==> KnownStops(r)
  {
    var info := t.stops[stopId];
    if |info.nextArrivals| >= NEXT_ARRIVALS_MAX then t
    else if !InFuture(time, nowHour, nowMin) then t
    else
      var info' := info.(nextArrivals := info.nextArrivals + [Arrival(FormatTime(time.value), tripId)]);
      var stops' := t.stops[stopId := info'];
      if tripId in t.imminent then t.(stops := stops')
      else Tracker(stops', t.imminentOrder + [tripId], t.imminent[tripId := Imminent(stopId, time.value)])
  }

  /** The calls for the stoppings `ps`, in order. */
  function Replay(t: Tracker, ps: seq<Stopping>, nowHour: nat, nowMin: nat): (r: Tracker)
    requires Supported(ps, t.stops)
    ensures r.stops.Keys == t.stops.Keys
    ensures KnownStops(t) ==> KnownStops(r)
    decreases |ps|
  {
    if ps == [] then t
    else
      var p, s := ps[..|ps| - 1], ps[|ps| - 1];
      var m := Replay(t, p, nowHour, nowMin);
      Step(m, s.stopId, s.arrivalTime, s.tripId, nowHour, nowMin)
  }

  lemma ReplaySnoc(t: Tracker, ps: seq<Stopping>, s: Stopping, nowHour: nat, nowMin: nat)
    requires Supported(ps, t.stops) && ValidStopping(s) && s.stopId in t.stops
    ensures Supported(ps + [s], t.stops)
    ensures Replay(t, ps + [s], nowHour, nowMin) ==
      Step(Replay(t, ps, nowHour, nowMin), s.stopId, s.arrivalTime, s.tripId, nowHour, nowMin)
  {
    assert (ps + [s])[..|ps|] == ps;
  }

  /** add_next_arrival registers a trip's imminent key once, on its first listed arrival. */
  lemma StepKeepsOrder(t: Tracker, stopId: StopId, time: Option<string>, tripId: TripId, nowHour: nat, nowMin: nat)
    requires stopId in t.stops && (time.Some? ==> ValidTime(time.value)) && OrderMatches(t)
    ensures OrderMatches(Step(t, stopId, time, tripId, nowHour, nowMin))
  {
    var r := Step(t, stopId, time, tripId, nowHour, nowMin);
    if Records(t, stopId, time, nowHour, nowMin) && tripId !in t.imminent {
      assert tripId !in t.imminentOrder;
      assert r.imminentOrder == t.imminentOrder + [tripId];
    }
  }

  /** Any run of calls keeps the imminent key order listing each key once. */
  lemma {:induction false} ReplayKeepsOrder(t: Tracker, ps: seq<Stopping>, nowHour: nat, nowMin: nat)
    requires Supported(ps, t.stops) && OrderMatches(t)
    ensures OrderMatches(Replay(t, ps, nowHour, nowMin))
  {
    if ps != [] {
      var p, s := ps[..|ps| - 1], ps[|ps| - 1];
      assert Supported(p, t.stops);
      ReplayKeepsOrder(t, p, nowHour, nowMin);
      StepKeepsOrder(Replay(t, p, nowHour, nowMin), s.stopId, s.arrivalTime, s.tripId, nowHour, nowMin);
    }
  }

  // ---------------------------------------------------------------------
  // Reference definitions of the outcome

  /** Every future arrival at stop `x`, as a list entry, in processing order: the list without its cap. */
  function FutureArrivals(ps: seq<Stopping>, x: StopId, nowHour: nat, nowMin: nat): (r: seq<Arrival>)
    requires AllValid(ps)
    ensures |r| <= |ps|
    ensures forall j :: 0 <= j < |r| ==> exists i :: 0 <= i < |ps| && Listed(ps[i], x, r[j], nowHour, nowMin)
  {
    if ps == [] then []
    else
      var p, s := ps[..|ps| - 1], ps[|ps| - 1];
      var rest := FutureArrivals(p, x, nowHour, nowMin);
      assert forall i :: 0 <= i < |p| ==> p[i] == ps[i];
      if s.stopId == x && InFuture(s.arrivalTime, nowHour, nowMin) then
        assert Listed(ps[|ps| - 1], x, ArrivalOf(s), nowHour, nowMin);
        rest + [ArrivalOf(s)]
      else rest
  }

  /** `a` is the entry of the future stopping `s` at stop `x`. */
  predicate Listed(s: Stopping, x: StopId, a: Arrival, nowHour: nat, nowMin: nat) {
    && ValidStopping(s) && s.stopId == x && InFuture(s.arrivalTime, nowHour, nowMin)
    && a == ArrivalOf(s)
  }

  /** The stoppings whose call appends to a list: future ones reaching a stop whose list still has room. */
  function RecordedStoppings(ps: seq<Stopping>, nowHour: nat, nowMin: nat): (r: seq<Stopping>)
    requires AllValid(ps)
    ensures AllTimed(r)
    ensures forall j :: 0 <= j < |r| ==> InFuture(r[j].arrivalTime, nowHour, nowMin)
  {
    if ps == [] then []
    else
      var p, s := ps[..|ps| - 1], ps[|ps| - 1];
      RecordedStoppings(p, nowHour, nowMin) +
        if InFuture(s.arrivalTime, nowHour, nowMin) &&
           |FutureArrivals(p, s.stopId, nowHour, nowMin)| < NEXT_ARRIVALS_MAX
        then [s] else []
  }

  /** Stoppings that all carry a well-formed time. */
  predicate AllTimed(rs: seq<Stopping>) {
    forall j :: 0 <= j < |rs| ==> rs[j].arrivalTime.Some? && ValidTime(rs[j].arrivalTime.value)
  }

  /** The first recorded stopping of trip `k`, as its imminent entry. */
  function FirstImminent(rs: seq<Stopping>, k: TripId): Imminent
    requires AllTimed(rs) && k in TripIds(rs)
  {
    var s := rs[FirstIndex(TripIds(rs), k)];
    Imminent(s.stopId, s.arrivalTime.value)
  }

  lemma TakeSnoc(s: seq<Arrival>, a: Arrival)
    ensures Take(s + [a], NEXT_ARRIVALS_MAX) ==
      if |s| < NEXT_ARRIVALS_MAX then Take(s, NEXT_ARRIVALS_MAX) + [a] else Take(s, NEXT_ARRIVALS_MAX)
  {
    if |s| >= NEXT_ARRIVALS_MAX {
      assert (s + [a])[..NEXT_ARRIVALS_MAX] == s[..NEXT_ARRIVALS_MAX];
    }
  }

  lemma TripIdsSnoc(rs: seq<Stopping>, s: Stopping)
    ensures TripIds(rs + [s]) == TripIds(rs) + [s.tripId]
  {
  }

  lemma ElementsSnoc<T>(s: seq<T>, x: T)
    ensures (set k | k in s + [x]) == (set k | k in s) + {x}
  {
  }

  lemma SupportedValid(ps: seq<Stopping>, stops: map<StopId, StopInfo>)
    requires Supported(ps, stops)
    ensures AllValid(ps)
  {
  }

  /** From empty lists, a run of calls leaves each stop's list as the first four future arrivals at it. */
  lemma {:induction false} ReplayLists(t: Tracker, ps: seq<Stopping>, x: StopId, nowHour: nat, nowMin: nat)
    requires Initial(t) && Supported(ps, t.stops) && x in t.stops
    ensures AllValid(ps)
    ensures Replay(t, ps, nowHour, nowMin).stops[x] ==
      t.stops[x].(nextArrivals := Take(FutureArrivals(ps, x, nowHour, nowMin), NEXT_ARRIVALS_MAX))
    decreases |ps|
  {
    SupportedValid(ps, t.stops);
    if ps != [] {
      var p, s := ps[..|ps| - 1], ps[|ps| - 1];
      assert ps == p + [s];
      ReplayLists(t, p, x, nowHour, nowMin);
      ReplaySnoc(t, p, s, nowHour, nowMin);
      if x == s.stopId && InFuture(s.arrivalTime, nowHour, nowMin) {
        TakeSnoc(FutureArrivals(p, x, nowHour, nowMin), ArrivalOf(s));
      }
    }
  }

  /** A call records exactly when the reference definition says it does. */
  lemma RecordsAsReference(t: Tracker, p: seq<Stopping>, s: Stopping, nowHour: nat, nowMin: nat)
    requires Initial(t) && Supported(p, t.stops) && ValidStopping(s) && s.stopId in t.stops
    ensures AllValid(p) && AllValid(p + [s])
    ensures Records(Replay(t, p, nowHour, nowMin), s.stopId, s.arrivalTime, nowHour, nowMin) <==>
      (InFuture(s.arrivalTime, nowHour, nowMin) &&
       |FutureArrivals(p, s.stopId, nowHour, nowMin)| < NEXT_ARRIVALS_MAX)
    ensures RecordedStoppings(p + [s], nowHour, nowMin) ==
      RecordedStoppings(p, nowHour, nowMin) +
        if Records(Replay(t, p, nowHour, nowMin), s.stopId, s.arrivalTime, nowHour, nowMin) then [s] else []
  {
    ReplayLists(t, p, s.stopId, nowHour, nowMin);
    ReplaySnoc(t, p, s, nowHour, nowMin);
    SupportedValid(p + [s], t.stops);
    assert (p + [s])[..|p|] == p;
  }

  /**
   * From the initial state, the imminent map holds exactly the trips of the
   * recorded stoppings, each with the first of them, and its key order is the
   * order in which those trips were first recorded.
   */
  lemma {:induction false} ReplayImminent(t: Tracker, ps: seq<Stopping>, nowHour: nat, nowMin: nat)
    requires Initial(t) && Supported(ps, t.stops)
    ensures AllValid(ps)
    ensures ImminentMatches(Replay(t, ps, nowHour, nowMin), RecordedStoppings(ps, nowHour, nowMin))
    decreases |ps|
  {
    SupportedValid(ps, t.stops);
    if ps != [] {
      var p, s := ps[..|ps| - 1], ps[|ps| - 1];
      assert ps == p + [s];
      ReplayImminent(t, p, nowHour, nowMin);
      RecordsAsReference(t, p, s, nowHour, nowMin);
      ReplaySnoc(t, p, s, nowHour, nowMin);
      StepImminent(Replay(t, p, nowHour, nowMin), s, RecordedStoppings(p, nowHour, nowMin), nowHour, nowMin);
    }
  }

  /**
   * The imminent map and its key order as the recorded stoppings `rs`
   * determine them: the trips of `rs` in first-recorded order, each with its
   * first recorded stopping.
   */
  predicate ImminentMatches(r: Tracker, rs: seq<Stopping>)
    requires AllTimed(rs)
  {
    && r.imminentOrder == Dedup(TripIds(rs))
    && r.imminent.Keys == (set k | k in TripIds(rs))
    && (forall k :: k in r.imminent ==> r.imminent[k] == FirstImminent(rs, k))
  }

  /** One call keeps the imminent map matched to the recorded stoppings. */
  lemma StepImminent(m: Tracker, s: Stopping, rp: seq<Stopping>, nowHour: nat, nowMin: nat)
    requires s.stopId in m.stops && ValidStopping(s)
    requires AllTimed(rp)
    requires ImminentMatches(m, rp)
    ensures var rs := rp + if Records(m, s.stopId, s.arrivalTime, nowHour, nowMin) then [s] else [];
      && AllTimed(rs)
      && ImminentMatches(Step(m, s.stopId, s.arrivalTime, s.tripId, nowHour, nowMin), rs)
  {
    if Records(m, s.stopId, s.arrivalTime, nowHour, nowMin) {
      var r := Step(m, s.stopId, s.arrivalTime, s.tripId, nowHour, nowMin);
      TripIdsSnoc(rp, s);
      if s.tripId in TripIds(rp) {
        StepImminentKnown(m, r, s, rp);
      } else {
        StepImminentNew(m, r, s, rp);
      }
    } else {
      assert rp + [] == rp;
    }
  }

  /** A recorded call for a trip that already has its entry: the map and its key order stay as they were. */
  lemma StepImminentKnown(m: Tracker, r: Tracker, s: Stopping, rp: seq<Stopping>)
    requires s.arrivalTime.Some? && ValidTime(s.arrivalTime.value)
    requires AllTimed(rp)
    requires ImminentMatches(m, rp) && s.tripId in TripIds(rp)
    requires r.imminentOrder == m.imminentOrder && r.imminent == m.imminent
    ensures AllTimed(rp + [s])
    ensures ImminentMatches(r, rp + [s])
  {
    TripOrderSnoc(rp, s);
    assert (set k | k in TripIds(rp)) + {s.tripId} == (set k | k in TripIds(rp));
    ImminentValuesKnown(m, s, rp);
  }

  lemma ImminentValuesKnown(m: Tracker, s: Stopping, rp: seq<Stopping>)
    requires s.arrivalTime.Some? && ValidTime(s.arrivalTime.value)
    requires AllTimed(rp)
    requires ImminentMatches(m, rp)
    ensures AllTimed(rp + [s])
    ensures forall k :: k in m.imminent ==> k in TripIds(rp + [s]) && m.imminent[k] == FirstImminent(rp + [s], k)
  {
    forall k | k in m.imminent ensures k in TripIds(rp + [s]) && m.imminent[k] == FirstImminent(rp + [s], k) {
      FirstImminentSnoc(rp, s, k);
    }
  }

  /** A trip's first recorded call writes its entry and appends it to the key order. */
  lemma StepImminentNew(m: Tracker, r: Tracker, s: Stopping, rp: seq<Stopping>)
    requires s.arrivalTime.Some? && ValidTime(s.arrivalTime.value)
    requires AllTimed(rp)
    requires ImminentMatches(m, rp) && s.tripId !in TripIds(rp)
    requires r.imminentOrder == m.imminentOrder + [s.tripId]
    requires r.imminent == m.imminent[s.tripId := Imminent(s.stopId, s.arrivalTime.value)]
    ensures AllTimed(rp + [s])
    ensures ImminentMatches(r, rp + [s])
  {
    var rs := rp + [s];
    TripOrderSnoc(rp, s);
    assert r.imminentOrder == Dedup(TripIds(rs));
    assert r.imminent.Keys == m.imminent.Keys + {s.tripId};
    assert r.imminent.Keys == (set k | k in TripIds(rs));
    ImminentValuesKnown(m, s, rp);
    FirstImminentNew(rp, s);
    forall k | k in r.imminent ensures r.imminent[k] == FirstImminent(rs, k) {
      if k != s.tripId {
        assert k in m.imminent;
      }
    }
  }

  /** The trips of the recorded stoppings, as a Hash's keys and as a set, after one more. */
  lemma TripOrderSnoc(rp: seq<Stopping>, s: Stopping)
    ensures Dedup(TripIds(rp + [s])) ==
      if s.tripId in TripIds(rp) then Dedup(TripIds(rp)) else Dedup(TripIds(rp)) + [s.tripId]
    ensures (set k | k in TripIds(rp + [s])) == (set k | k in TripIds(rp)) + {s.tripId}
  {
    TripIdsSnoc(rp, s);
    DedupSnoc(TripIds(rp), s.tripId);
    ElementsSnoc(TripIds(rp), s.tripId);
  }

  lemma FirstImminentSnoc(rp: seq<Stopping>, s: Stopping, k: TripId)
    requires AllTimed(rp)
    requires s.arrivalTime.Some? && ValidTime(s.arrivalTime.value) && k in TripIds(rp)
    ensures AllTimed(rp + [s])
    ensures k in TripIds(rp + [s])
    ensures FirstImminent(rp + [s], k) == FirstImminent(rp, k)
  {
    TripIdsSnoc(rp, s);
    FirstIndexOfPrefix(TripIds(rp), s.tripId, k);
  }

  lemma FirstImminentNew(rp: seq<Stopping>, s: Stopping)
    requires AllTimed(rp)
    requires s.arrivalTime.Some? && ValidTime(s.arrivalTime.value) && s.tripId !in TripIds(rp)
    ensures AllTimed(rp + [s])
    ensures s.tripId in TripIds(rp + [s])
    ensures FirstImminent(rp + [s], s.tripId) == Imminent(s.stopId, s.arrivalTime.value)
  {
    TripIdsSnoc(rp, s);
    assert FirstIndex(TripIds(rp + [s]), s.tripId) == |rp|;
  }

  // ---------------------------------------------------------------------
  // Properties of a run

  /** A stop's list never grows past NEXT_ARRIVALS_MAX, and each entry is a future arrival at that stop. */
  lemma ArrivalsCappedAndFuture(t: Tracker, ps: seq<Stopping>, nowHour: nat, nowMin: nat, x: StopId)
    requires Initial(t) && Supported(ps, t.stops) && x in t.stops
    ensures var list := Replay(t, ps, nowHour, nowMin).stops[x].nextArrivals;
      && |list| <= NEXT_ARRIVALS_MAX
      && forall j :: 0 <= j < |list| ==> exists i :: 0 <= i < |ps| && Listed(ps[i], x, list[j], nowHour, nowMin)
  {
    ReplayLists(t, ps, x, nowHour, nowMin);
    var fa := FutureArrivals(ps, x, nowHour, nowMin);
    var list := Replay(t, ps, nowHour, nowMin).stops[x].nextArrivals;
    assert list == Take(fa, NEXT_ARRIVALS_MAX);
    forall j | 0 <= j < |list| ensures exists i :: 0 <= i < |ps| && Listed(ps[i], x, list[j], nowHour, nowMin) {
      assert list[j] == fa[j];
      var i :| 0 <= i < |ps| && Listed(ps[i], x, fa[j], nowHour, nowMin);
    }
  }

  /** Imminent entries are written once: whatever a prefix of the calls recorded is still there, unchanged, at the end. */
  lemma {:induction false} ImminentWriteOnce(t: Tracker, ps: seq<Stopping>, n: nat, nowHour: nat, nowMin: nat)
    requires Supported(ps, t.stops) && n <= |ps|
    ensures Supported(ps[..n], t.stops)
    ensures var early := Replay(t, ps[..n], nowHour, nowMin);
      var late := Replay(t, ps, nowHour, nowMin);
      forall k :: k in early.imminent ==> k in late.imminent && late.imminent[k] == early.imminent[k]
    decreases |ps| - n
  {
    assert forall i :: 0 <= i < n ==> ps[..n][i] == ps[i];
    if n < |ps| {
      var p := ps[..|ps| - 1];
      assert p[..n] == ps[..n];
      ImminentWriteOnce(t, p, n, nowHour, nowMin);
    } else {
      assert ps[..n] == ps;
    }
  }

  /** Some stopping is recorded exactly when some stopping is in the future: the first future one always finds room. */
  lemma {:induction false} RecordedIffSomeFuture(ps: seq<Stopping>, nowHour: nat, nowMin: nat)
    requires AllValid(ps)
    ensures RecordedStoppings(ps, nowHour, nowMin) == [] <==>
      forall i :: 0 <= i < |ps| ==> !InFuture(ps[i].arrivalTime, nowHour, nowMin)
  {
    if ps != [] {
      var p, s := ps[..|ps| - 1], ps[|ps| - 1];
      assert forall i :: 0 <= i < |p| ==> p[i] == ps[i];
      var rp := RecordedStoppings(p, nowHour, nowMin);
      var tail := if InFuture(s.arrivalTime, nowHour, nowMin) &&
                     |FutureArrivals(p, s.stopId, nowHour, nowMin)| < NEXT_ARRIVALS_MAX
                  then [s] else [];
      assert RecordedStoppings(ps, nowHour, nowMin) == rp + tail;
      RecordedIffSomeFuture(p, nowHour, nowMin);
      if rp == [] {
        NoFutureNoArrivals(p, s.stopId, nowHour, nowMin);
        if InFuture(s.arrivalTime, nowHour, nowMin) {
          assert tail == [s];
          assert InFuture(ps[|ps| - 1].arrivalTime, nowHour, nowMin);
        } else {
          assert RecordedStoppings(ps, nowHour, nowMin) == [];
          forall i | 0 <= i < |ps| ensures !InFuture(ps[i].arrivalTime, nowHour, nowMin) {
            if i < |p| {
              assert ps[i] == p[i];
            } else {
              assert ps[i] == s;
            }
          }
        }
      } else {
        assert RecordedStoppings(ps, nowHour, nowMin) != [];
        var i :| 0 <= i < |p| && InFuture(p[i].arrivalTime, nowHour, nowMin);
        assert InFuture(ps[i].arrivalTime, nowHour, nowMin);
      }
    }
  }

  lemma {:induction false} NoFutureNoArrivals(ps: seq<Stopping>, x: StopId, nowHour: nat, nowMin: nat)
    requires AllValid(ps)
    requires forall i :: 0 <= i < |ps| ==> !InFuture(ps[i].arrivalTime, nowHour, nowMin)
    ensures FutureArrivals(ps, x, nowHour, nowMin) == []
  {
    if ps != [] {
      var p := ps[..|ps| - 1];
      assert forall i :: 0 <= i < |p| ==> p[i] == ps[i];
      NoFutureNoArrivals(p, x, nowHour, nowMin);
    }
  }

  /** From the initial state the imminent map ends empty exactly when no stopping is still to come. */
  lemma NoImminentIffNoFuture(t: Tracker, ps: seq<Stopping>, nowHour: nat, nowMin: nat)
    requires Initial(t) && Supported(ps, t.stops)
    ensures Replay(t, ps, nowHour, nowMin).imminent == map[] <==>
      forall i :: 0 <= i < |ps| ==> !InFuture(ps[i].arrivalTime, nowHour, nowMin)
  {
    ReplayImminent(t, ps, nowHour, nowMin);
    RecordedIffSomeFuture(ps, nowHour, nowMin);
    EmptyIffNoneRecorded(Replay(t, ps, nowHour, nowMin), RecordedStoppings(ps, nowHour, nowMin));
  }

  lemma EmptyIffNoneRecorded(r: Tracker, rs: seq<Stopping>)
    requires AllTimed(rs) && ImminentMatches(r, rs)
    ensures r.imminent == map[] <==> rs == []
  {
    if rs != [] {
      assert TripIds(rs)[0] in TripIds(rs);
      assert rs[0].tripId in r.imminent;
    } else {
      assert TripIds(rs) == [];
      assert r.imminent.Keys == {};
    }
  }
}
