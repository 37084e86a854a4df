# TransitTrips timetable builder, modelled in Dafny

This project models the timetable builder `TransitTrips` of
`lib/transit_trips.rb`. Given the stop-time rows of one route and direction
and the stop metadata rows, the builder:

- groups the rows into trips, keyed by `trip_id` in first-seen order, and
  raises `NoRouteData` when there are no rows (`calc_next_arrivals`);
- walks the trips in that order, each trip sorted by `stop_sequence`, and
  merges them into one grid (`make_grid`). Every trip owns one column. A
  per-trip cursor decides where a stop seen for the first time is inserted
  into the shared row list. A stop that already has a row gets its slot
  written there, and the cursor moves just past that row;
- reports each stopping to `add_next_arrival`. This keeps at most four
  upcoming `[label, trip_id]` pairs per stop, and a write-once "imminent"
  map from each trip to the first stop and time it listed;
- turns `HH:MM:SS` schedule times into 12-hour labels (`format_time`) and
  flags each one as still to come or already past (`format_and_flag_time`).
  Hours past 23 mean service after midnight, and before 4 am "now" counts
  as hour 24 to 27;
- remaps stop ids to legacy integer ids (`fix_grid_stop_ids`,
  `use_int_keys`, `to_int_key`) and assembles the result hash (`result`).
  The hash has an alert message exactly when no trip has an upcoming
  arrival.

The modules follow the program's structure:

- `common.dfy` (`Common`): `Option`, `Result`, and `Dedup`. `Dedup` keeps
  first occurrences, as `Array#uniq` and an insertion-ordered `Set` do.
- `text.dfy` (`Text`): `Integer#to_s`, the `"%.2d"` format and `String#<`.
- `time_format.dfy` (`TimeFormat`): `format_time` and `format_and_flag_time`.
- `schedule.dfy` (`Schedule`): the row and stop records, `null_or_value`,
  `convert_stop_data`, grouping rows into trips, and the sort by
  `stop_sequence`.
- `grid.dfy` (`Grid`): `make_grid`'s merge as functions on values, with
  its shape, column and order properties.
- `arrivals.dfy` (`Arrivals`): `add_next_arrival` as a step function, runs
  of steps, and closed forms for the lists and the imminent map.
- `assembly.dfy` (`Assembly`): the id remapping, the result, and the whole
  build as one function `Timetable` of the rows, the metadata and the time.
- `builder_steps.dfy` (`BuilderSteps`): the loop invariants of the
  imperative methods and the lemmas that carry them from one iteration to
  the next.
- `transit_trips.dfy` (`Trips`): class `TransitTrips`. Its fields are the
  hashes the Ruby object updates in place, and its methods change them as
  the Ruby methods do. Each is proved against the functions above.
  `CalcNextArrivals`, `MakeGrid` and `PlaceStoppings` are `while` loops.
  `AddNextArrival`, `FixGridStopIds`, `UseIntKeys` and `Result` are
  straight-line updates. Some loops sit in module-level methods outside the
  class: `GroupRows` and `LoadStops` (the two loops of
  `calc_next_arrivals`) and `FileByIntKey` (the loop of `use_int_keys`).
  `PlaceStopping`, `Publish`, `GridLoaded`, `Finish` and `BuildResult` are
  module-level too. `BuildResult` runs `TransitTrips.new` followed by
  `result` and is proved to return exactly `Timetable`.

A Ruby `Hash` keeps its keys in insertion order. The model pairs each hash
with a sequence of its keys in that order (`tripOrder`, `stopOrder`,
`imminentOrder`, `fixedOrder`). The current time is two parameters,
`nowHour` and `nowMin`, fixed for the whole build.

## Model

| member | source | states |
|---|---|---|
| `Common.Dedup` | lib/transit_trips.rb:29 | Keeps exactly the elements of its input, and is never longer. |
| `Common.DedupDistinct` | lib/transit_trips.rb:29 | The de-duplicated sequence has no repeated element. |
| `Common.DedupInFirstSeenOrder` | lib/transit_trips.rb:29 | Elements keep the order of their first occurrences in the input. |
| `Text.NatToString` | lib/transit_trips.rb:216 | `Integer#to_s` gives a non-empty digit string with no leading zero, of length 1 exactly below 10. |
| `Text.ParseNatToString` | lib/transit_trips.rb:216 | The printed number reads back as the same number. |
| `Text.Pad2` | lib/transit_trips.rb:189 | `"%.2d"` gives digits that read back as the number, exactly two of them below 100. |
| `Text.TwoDigitLexLess` | lib/transit_trips.rb:190 | On two-digit fields, string order is numeric order and string equality is numeric equality. |
| `Text.LexLessConcat` | lib/transit_trips.rb:190 | `String#<` on equal-length prefixes compares the prefixes first and the rest only on a tie. |
| `Text.LexLessStrict` | lib/transit_trips.rb:190 | `String#<` is a strict order: never between equal strings, never both ways round, and a proper prefix sorts first. |
| `TimeFormat.ClockHour` | lib/transit_trips.rb:199-215 | The printed hour is at least 1 and the suffix is `a` or `p`. Up to hour 35 the pair is a 1..12 hour that denotes hour `h mod 24` of the day, which fixes each case of the hour table. Every hour past 24 prints as `h - 24` with `a`, 36 and later included. |
| `TimeFormat.FormatTime` | lib/transit_trips.rb:197-217 | The label has no leading zero, copies the minute characters verbatim and ends with the suffix. Up to hour 35 a 12-hour parse of the label recovers the hour mod 24 and the minutes. |
| `TimeFormat.ServiceHourOfDay` | lib/transit_trips.rb:184-188 | The hour "now" is compared under is the same hour of the day, never before 4, and at most 27 for a clock hour. |
| `TimeFormat.NowStringFields` | lib/transit_trips.rb:184-189 | The now string is `HH:MM`: two digits reading back as the service hour, a colon, two digits reading back as the minute. |
| `TimeFormat.FormatAndFlagTime` | lib/transit_trips.rb:179-195 | Nothing exactly for an absent time. Otherwise the label of `format_time` with flag 1 or -1. The flag is 1 exactly when the `HH:MM` prefix is not below the now string. |
| `TimeFormat.FlagIsNumeric` | lib/transit_trips.rb:182-194 | For a real clock reading the string comparison agrees with comparing hour*100+minute against the service hour and minute of now. |
| `TimeFormat.FlagByMinutes` | lib/transit_trips.rb:182-194 | With minutes below 60 the flag compares minutes since the start of the service day. |
| `TimeFormat.LateNightArrival` | lib/transit_trips.rb:186-190 | At 1 am, `25:10:00` is still to come exactly until 1:10. |
| `Schedule.NullOrValue` | lib/transit_trips.rb:169-175 | nil exactly for nil or the empty string, and the value itself otherwise. |
| `Schedule.ConvertStopData` | lib/transit_trips.rb:98-108 | The record copies name, integer id, native id and coordinates, and starts with no next arrivals. Its parent is present exactly when the parent station is present and not empty. |
| `Schedule.TripOrder` | lib/transit_trips.rb:52 | The keys of `@trips` hold each trip id of the rows exactly once and nothing else. |
| `Schedule.RowsOfTrip` | lib/transit_trips.rb:52 | A trip's group holds only rows of that trip, taken from the input. |
| `Schedule.GroupsCoverRows` | lib/transit_trips.rb:44-55 | Every row is in its trip's group, and a trip's group is non-empty exactly when the trip id occurs in the rows. |
| `Schedule.Groups` | lib/transit_trips.rb:44-55 | The keys of `@trips` are exactly the trip ids of the rows, each mapped to its rows in input order. |
| `Schedule.GroupsSnoc` | lib/transit_trips.rb:52 | One more row appends to its trip's group and leaves every other group unchanged. |
| `Schedule.MetaMap` | lib/transit_trips.rb:59-61 | Every metadata row's stop gets a record, keyed by its own native id, with no next arrivals. |
| `Schedule.MetaMapFromLastRow` | lib/transit_trips.rb:59-61 | Each record is `convert_stop_data` of the last metadata row for its stop. |
| `Schedule.InsertBySequence` | lib/transit_trips.rb:69 | Inserting a stopping adds exactly that stopping and keeps all the others. |
| `Schedule.SortBySequence` | lib/transit_trips.rb:69 | The sort keeps exactly the trip's stoppings, each as often as before. |
| `Schedule.InsertBySequenceSorts` | lib/transit_trips.rb:69 | Inserting into a sorted trip keeps it sorted by `stop_sequence` and adds exactly the one stopping. |
| `Schedule.SortBySequenceSorts` | lib/transit_trips.rb:69 | `sort_by stop_sequence` gives a sorted permutation of the trip's rows. |
| `Schedule.SortedOrderIsUnique` | lib/transit_trips.rb:69 | With distinct `stop_sequence` values, any two sorted permutations are equal, so every sort gives the same order. |
| `Schedule.SortedFirstIsLowest` | lib/transit_trips.rb:69 | The first sorted stopping has the lowest `stop_sequence` of the trip. |
| `Schedule.SortedGroups` | lib/transit_trips.rb:67-69 | Column k holds trip k of the key order, sorted by `stop_sequence`. |
| `Grid.FindRow` | lib/transit_trips.rb:79 | The linear scan returns the first row with the stop id, or nothing exactly when no row has it. |
| `Grid.FindRowAt` | lib/transit_trips.rb:79 | With one row per stop, the scan for a row's stop finds that row. |
| `Grid.NewTimes` | lib/transit_trips.rb:84-85 | A new row has one slot per trip, the stopping's slot in its column and nil everywhere else. |
| `Grid.Place` | lib/transit_trips.rb:79-93 | One stopping keeps the grid well formed and adds its stop's row. A found stop changes only its own column of its own row, and the cursor moves just past that row. A new stop's row goes in at the cursor, the cursor moves past it, and the insert is in bounds. |
| `Grid.PlaceFoundIds` | lib/transit_trips.rb:79-82 | A found stop keeps the row order, and the cursor becomes the row's index plus one. |
| `Grid.PlaceNewIds` | lib/transit_trips.rb:83-92 | A new stop's id enters the row order at the cursor. |
| `Grid.PlaceColumns` | lib/transit_trips.rb:79-93 | A step writes exactly one slot, the stopping's column of its stop's row; every other slot of every stop is unchanged. |
| `Grid.PlaceKeepsOrder` | lib/transit_trips.rb:79-93 | A step never reorders two existing rows. |
| `Grid.MergeTrip` | lib/transit_trips.rb:70-94 | Merging one trip keeps the grid well formed and adds rows for exactly the trip's stops. |
| `Grid.MergeTripColumns` | lib/transit_trips.rb:70-94 | After a trip's merge, its column holds for each stop it visits the slot of its last visit there, and every other column is unchanged. |
| `Grid.MergeTripKeepsOrder` | lib/transit_trips.rb:70-94 | A trip's merge never reorders two existing rows. |
| `Grid.LastSlot` | lib/transit_trips.rb:81 | A trip's slot for a stop it never visits is nil. |
| `Grid.BuildGrid` | lib/transit_trips.rb:64-96 | Every row has one slot per trip, no stop has two rows, and the rows are exactly the stops some trip visits. |
| `Grid.BuildGridColumns` | lib/transit_trips.rb:67-93 | Trip k writes only column k: that column holds, for each stop, trip k's slot for it. |
| `Grid.BuildGridSlots` | lib/transit_trips.rb:67-93 | Each slot of the final grid is its column's trip's slot for the row's stop. |
| `Grid.SlotFilledIffVisited` | lib/transit_trips.rb:67-93 | When every time is present, trip k's slot in a row is non-nil exactly when trip k visits the row's stop. |
| `Grid.LastSlotPresent` | lib/transit_trips.rb:73 | With all times present, a trip's slot for a stop is non-nil exactly when the trip visits it. |
| `Grid.OrderedStopIds` | lib/transit_trips.rb:110-112 | One id per row, in row order. |
| `Grid.BranchOrder` | lib/transit_trips.rb:67-93 | Trips X,Y then X,Z give the rows X, Z, Y, whatever the times and the current time. |
| `Grid.BranchFirstTrip` | lib/transit_trips.rb:83-92 | The first trip inserts its stops in visiting order. |
| `Grid.BranchSecondTrip` | lib/transit_trips.rb:79-92 | A trip that finds its first stop in row 0 inserts its next new stop at row 1. |
| `Arrivals.InFuture` | lib/transit_trips.rb:159-160 | Only a present time can count as still to come. |
| `Arrivals.ArrivalOf` | lib/transit_trips.rb:159-161 | A list entry carries the stopping's trip, and its label reads back as the stopping's time of day. |
| `Arrivals.Records` | lib/transit_trips.rb:158-160 | A call appends only when the stop's list has fewer than four entries and the stopping's `HH:MM` is not before the now string. |
| `Arrivals.Step` | lib/transit_trips.rb:157-167 | A full list or a time not still to come changes nothing. Otherwise the label and trip are appended to that stop's list only, and the trip's imminent entry is added if it has none; no existing imminent entry is ever changed. |
| `Arrivals.Replay` | lib/transit_trips.rb:71-74 | The calls keep the set of stop records. |
| `Arrivals.StepKeepsOrder` | lib/transit_trips.rb:163-165 | A step keeps the imminent map's key order duplicate free and equal to its keys. |
| `Arrivals.ReplayKeepsOrder` | lib/transit_trips.rb:163-165 | A run of steps does the same. |
| `Arrivals.FutureArrivals` | lib/transit_trips.rb:159-161 | Each reference entry comes from a stopping at that stop that is still to come. |
| `Arrivals.RecordedStoppings` | lib/transit_trips.rb:158-161 | Every recorded stopping has a time, and that time is still to come. |
| `Arrivals.ReplayLists` | lib/transit_trips.rb:157-161 | After any run from the loaded state, a stop's list is the first four of its still-to-come arrivals in processing order; nothing else of the record changes. |
| `Arrivals.RecordsAsReference` | lib/transit_trips.rb:158-161 | A call records exactly when its time is still to come and fewer than four earlier arrivals were listed at its stop. |
| `Arrivals.ReplayImminent` | lib/transit_trips.rb:163-165 | The imminent map has exactly the trips of the recorded stoppings. Each maps to the stop and raw time of its first recorded stopping, with keys in first-recorded order. |
| `Arrivals.StepImminent` | lib/transit_trips.rb:163-165 | One step extends that correspondence by the stopping it records, if any. |
| `Arrivals.ArrivalsCappedAndFuture` | lib/transit_trips.rb:157-161 | A stop's list never holds more than four entries, and each is the label and trip of a still-to-come stopping at that stop. |
| `Arrivals.ImminentWriteOnce` | lib/transit_trips.rb:163-165 | Whatever imminent entry a prefix of the calls recorded is still there, unchanged, at the end. |
| `Arrivals.RecordedIffSomeFuture` | lib/transit_trips.rb:157-165 | Something is recorded exactly when some stopping is still to come: the first one always finds room. |
| `Arrivals.NoFutureNoArrivals` | lib/transit_trips.rb:159-160 | With nothing still to come, no stop lists anything. |
| `Arrivals.NoImminentIffNoFuture` | lib/transit_trips.rb:157-167 | From the loaded state the imminent map ends empty exactly when no stopping is still to come. |
| `Arrivals.EmptyIffNoneRecorded` | lib/transit_trips.rb:163-165 | The imminent map is empty exactly when nothing was recorded. |
| `Assembly.IntKeyFromMetadata` | lib/transit_trips.rb:127-129 | `to_int_key` gives the `stop_integer_id` of the stop's last metadata row. |
| `Assembly.IntKeyStringReadsBack` | lib/transit_trips.rb:123 | The key string of a stop is all digits and reads back as its integer id. Two stops get the same key exactly when they share an integer id. |
| `Assembly.WithIntegerIds` | lib/transit_trips.rb:132-138 | Same number of rows in the same order; each row keeps name and slots, and its stop id becomes that stop's integer id. |
| `Assembly.IntegerIdsKeepShape` | lib/transit_trips.rb:132-138 | The remapped grid keeps one slot per trip per row and the ids in row order become integer ids. Rows stay one per stop when integer ids are distinct. |
| `Assembly.ImminentStopIds` | lib/transit_trips.rb:114-118 | The stop of each imminent entry, in the map's key order. |
| `Assembly.ImminentKeys` | lib/transit_trips.rb:29 | `imminent_stop_ids` has no repeats, is no longer than the list of imminent stops, and holds the key of each of them. |
| `Assembly.ImminentKeysFirstSeen` | lib/transit_trips.rb:29 | The result's `imminent_stop_ids` has no duplicates, names the key of every imminent stop and nothing else, in first-seen order. |
| `Assembly.IntKeyed` | lib/transit_trips.rb:121-125 | Every stop's integer-id string is a key of the re-keyed hash, and every key is one of them. |
| `Assembly.IntKeyOrder` | lib/transit_trips.rb:121-125 | The key order of the re-keyed hash has no repeats and lists exactly its keys. |
| `Assembly.IntKeyedLastWins` | lib/transit_trips.rb:123 | Each key holds the record of the last stop, in key order, with that integer id. |
| `Assembly.IntKeyedKeepsAll` | lib/transit_trips.rb:121-125 | With distinct integer ids every stop's record survives the re-keying. |
| `Assembly.NoMoreTrips` | lib/transit_trips.rb:35-37 | The alert is present exactly when the imminent map is empty, with title `Alert` and body `No more trips for the day`. |
| `Assembly.TripsOf` | lib/transit_trips.rb:67-69 | One trip per trip key. |
| `Assembly.Loaded` | lib/transit_trips.rb:59-61 | After loading, no stop lists anything and no imminent entry exists. |
| `Assembly.StopOrder` | lib/transit_trips.rb:54-60 | The keys of `@stops` have no repeats and are exactly the stops of the rows and of the metadata. |
| `Assembly.TripsHoldRows` | lib/transit_trips.rb:69 | The sorted trips hold the rows and nothing else. |
| `Assembly.GridStopsAreRowStops` | lib/transit_trips.rb:64-96 | The stops the trips visit are exactly the stops of the rows. |
| `Assembly.StopOrderKnown` | lib/transit_trips.rb:54-61 | Every key of `@stops` has a record after loading. |
| `Assembly.GridOf` | lib/transit_trips.rb:64-96 | The grid of the rows is well formed, with one row for each stop of the rows, each stop with a record. |
| `Assembly.ArrivalsOf` | lib/transit_trips.rb:67-74 | The arrival state keeps the metadata's stops, and its key order matches the imminent map. |
| `Assembly.TimetableParts` | lib/transit_trips.rb:20-21 | For non-empty rows the grid and the arrival state are the merge and the run of calls over the sorted trips. |
| `Assembly.TimetableAssembled` | lib/transit_trips.rb:25-39 | For non-empty rows the result assembles that grid, arrival state, stop key order and first stops. |
| `Assembly.Assemble` | lib/transit_trips.rb:25-39 | The result's grid is the remapped grid, `ordered_stop_ids` is its ids in row order, and the message is present exactly when the imminent map is empty. |
| `Assembly.Timetable` | lib/transit_trips.rb:14-39 | The build fails, with `NoRouteData`, exactly when there are no rows. |
| `Assembly.FlattenHolds` | lib/transit_trips.rb:67-74 | make_grid reports every stopping of every trip. |
| `Assembly.FlattenFrom` | lib/transit_trips.rb:67-74 | Every stopping make_grid reports belongs to one of the trips. |
| `Assembly.FirstNamesHas` | lib/transit_trips.rb:76-78 | A name is collected exactly when it is the first sorted stopping's name of some trip. |
| `Assembly.TripFirstIsLowest` | lib/transit_trips.rb:69-76 | Each trip's first sorted stopping is one of its rows with the lowest `stop_sequence`. |
| `Assembly.FirstStopsAreTripOrigins` | lib/transit_trips.rb:76-78 | `first_stop` is duplicate free and holds exactly the names of trips' lowest-sequence stoppings. |
| `Assembly.FlattenIsRows` | lib/transit_trips.rb:67-74 | make_grid reports exactly the stoppings of the rows. |
| `Assembly.NothingAheadInRows` | lib/transit_trips.rb:67-74 | Nothing is still to come in the processing order exactly when nothing is among the rows. |
| `Assembly.MessageIffNothingAhead` | lib/transit_trips.rb:35-58 | No rows fail with `NoRouteData`. Otherwise the result has the alert exactly when no stopping is still to come. |
| `Trips.TransitTrips.constructor` | lib/transit_trips.rb:14-19 | All hashes start empty. |
| `Trips.TransitTrips.CalcNextArrivals` | lib/transit_trips.rb:41-62 | `@trips` becomes the rows grouped by trip in first-seen key order. It fails with `NoRouteData` exactly for no rows. Otherwise `@stops` holds the metadata records with its keys in insertion order. |
| `Trips.GroupRows` | lib/transit_trips.rb:44-55 | The row loop gives the trip key order, the groups and the stop key order, and no trips exactly for no rows. |
| `Trips.LoadStops` | lib/transit_trips.rb:59-61 | The metadata loop gives the records of `MetaMap` and the stop key order. |
| `Trips.TransitTrips.AddNextArrival` | lib/transit_trips.rb:157-167 | The stop records and imminent map after the call are one `Step` of those before it. |
| `Trips.TransitTrips.MakeGrid` | lib/transit_trips.rb:64-96 | The grid is `BuildGrid` of the sorted trips and the first stops are their de-duplicated first names. The arrival state is the run of calls over all stoppings in processing order. |
| `Trips.TransitTrips.PlaceStoppings` | lib/transit_trips.rb:71-94 | The inner loop over trip `col` extends the loop invariant from `col` trips to `col + 1`. |
| `Trips.PlaceStopping` | lib/transit_trips.rb:79-93 | The scan-then-write-or-insert step is `Place`, and keeps the grid well formed with the cursor in bounds. |
| `Trips.TransitTrips.FixGridStopIds` | lib/transit_trips.rb:132-138 | The kept grid is `WithIntegerIds` of the grid. |
| `Trips.FileByIntKey` | lib/transit_trips.rb:121-125 | The loop gives the re-keyed hash `IntKeyed` and its key order. |
| `Trips.TransitTrips.UseIntKeys` | lib/transit_trips.rb:121-125 | `@fixed_stops` becomes the re-keyed hash and is returned. |
| `Trips.TransitTrips.Result` | lib/transit_trips.rb:25-39 | The result hash is `Assemble` of the state, and `@fixed_stops` with its key order becomes the re-keyed hash of the stops. |
| `Trips.Publish` | lib/transit_trips.rb:22-39 | `fix_grid_stop_ids` then `result` give `Assemble` of the built state. The kept grid is the remapped grid, and the fixed stops are the re-keyed hash with its key order. |
| `Trips.GridLoaded` | lib/transit_trips.rb:21 | `make_grid` on the loaded state leaves the grid, arrival state and first stops of the specification functions. |
| `Trips.Finish` | lib/transit_trips.rb:21-39 | The rest of the build after loading returns the `Timetable` result. It leaves the grid, the arrival state and the first stops of the specification functions, the remapped grid, and the re-keyed stops with their key order. |
| `Trips.BuildResult` | lib/transit_trips.rb:14-39 | `TransitTrips.new` then `result` returns exactly `Timetable`, `NoRouteData` included. |

## Left out

- The database (lib/transit_trips.rb:2, 43-44, 59): the two query results are the inputs `rows` and `meta`.
- `Time.now` (lib/transit_trips.rb:184, 189): the hour and minute are the parameters `nowHour` and `nowMin`, read once for the whole build. The source reads the clock twice in each `format_and_flag_time`, and calls that function twice per stopping: for the slot (line 73) and inside `add_next_arrival` (line 159) unless the stop's list is already full. That is up to four reads per stopping, and they can straddle a minute or an hour boundary. A slot's flag and the decision to list the same arrival can then disagree. The single reading of the model rules that out.
- `region` (lib/transit_trips.rb:140-155): floating-point minimum, maximum and scaling of coordinates. The result has no `region` field.
- The `__FILE__ == $0` demo block (lib/transit_trips.rb:222-228), and the `attr` readers.
- `lib/nextbus_feeds.rb`, `app.rb` and `app/models/alert.rb` are not part of this model. They are feed polling, HTTP routing and RSS fetching, all I/O around this builder.
- `Assembly.Loadable`: every row's stop has a metadata row, and a present time has the `HH:MM:SS` shape. Without a metadata row the source crashes at lib/transit_trips.rb:158 on the empty placeholder record, so the placeholder records of line 54 are not modelled. The source asks less of a time: it crashes at line 190 only when the time does not start with `HH:MM`, where the match of line 183 is nil. Times such as `08:05` or `08:05:00.5` format without error there, but the model assumes the full `HH:MM:SS` shape.
- `Schedule.StopMeta`: `stopIntegerId` is a `nat`, so the model assumes non-negative integer ids. A negative id would print with a leading `-` as a result key, and that case is not modelled.
- `Schedule.SortBySequence`: a stable insertion sort. Ruby's `sort_by` is not stable, so for a trip that repeats a `stop_sequence` the source's order is unspecified. `Schedule.SortedOrderIsUnique` shows that with distinct sequences every sort gives this one order.
- `Trips.TransitTrips.MakeGrid`: grid rows are values, and a write replaces the row in the sequence. The source mutates the row hash in place and recomputes the cursor with `@grid.index(stop_row)`, which compares rows by value. Since no two rows share a stop, that index is the scanned row's, so the cursor is the same.
- `TimeFormat.FormatTime`: the 12-hour round trip is stated only up to hour 35. For hour 36 and later the code prints `h - 24` (12 or more), always with `a` (lib/transit_trips.rb:202-203). A reading where such hours take the suffix of the reduced hour would print `p` there; the model follows the code.
- `Arrivals.ReplayLists`: a stop's list holds the first four still-to-come arrivals in processing order, which is trip column order and then `stop_sequence`. That is not necessarily the four soonest, and the model states the order as the code has it.
- `Trips.TransitTrips.CalcNextArrivals`: the hash default of `@trips` (line 17) is modelled by an explicit empty group for a new key.
