/** The script's table pipeline, stage by stage: the Carris (CL) and Carris
    Metropolitana (CM) tables are prepared, CL is aligned onto CM's columns
    and appended after it, the colour table is joined on `Line_ID`, the
    time fields and the district are derived, and every row is coerced
    into one database record. */
module Pipeline {
  import opened Wrappers
  import opened Tables
  import Text
  import Gtfs
  import Status
  import LineId
  import Temporal
  import District
  import Join
  import Coerce

  /** The CL drop list as written; its labels are stripped before use, which
      repairs the stray space of " vehicle_license_plate". */
  const CarrisDropList: seq<string> :=
    ["current_stop_sequence", "current_status", "trip_schedule_relationship",
     "current_stop_sequence", "trip_id",
     "vehicle_id", " vehicle_license_plate", "timestamp", "datetime"]

  function StrippedSet(names: seq<string>): (r: set<string>)
    ensures forall k :: 0 <= k < |names| ==> Text.Strip(names[k]) in r
    ensures forall c :: c in r ==> exists k :: 0 <= k < |names| && c == Text.Strip(names[k])
  {
    set k | 0 <= k < |names| :: Text.Strip(names[k])
  }

  /** The CL drop list once stripped. */
  const CarrisDropLabels: seq<string> :=
    ["current_stop_sequence", "current_status", "trip_schedule_relationship",
     "current_stop_sequence", "trip_id",
     "vehicle_id", "vehicle_license_plate", "timestamp", "datetime"]

  /** Stripping the drop list repairs " vehicle_license_plate", so the
      licence plate column is dropped too; the other labels are unchanged. */
  lemma CarrisDropStripped(k: int)
    requires 0 <= k < |CarrisDropList|
    ensures Text.Strip(CarrisDropList[k]) == CarrisDropLabels[k]
  {
    var name := CarrisDropList[k];
    if k == 6 {
      assert name[1..] == CarrisDropLabels[6];
      Text.StripLeadingSpace(name);
      Text.StripLetters(CarrisDropLabels[6]);
    } else {
      assert name == CarrisDropLabels[k];
      Text.StripLetters(name);
    }
  }

  lemma CarrisDropSet()
    ensures StrippedSet(CarrisDropList) == set k | k in CarrisDropLabels
  {
    forall k | 0 <= k < |CarrisDropList|
      ensures Text.Strip(CarrisDropList[k]) == CarrisDropLabels[k]
    {
      CarrisDropStripped(k);
    }
  }

  const CarrisRenames: map<string, string> := map[
    "entity_id" := "Line_ID",
    "position_latitude" := "Latitude",
    "position_longitude" := "Longitude",
    "current_status_text" := "Current_Status",
    "trip_route_id" := "Route_ID",
    "stop_id" := "Stop_ID",
    "trip_trip_id" := "Trip_ID",
    "trip_direction_id" := "Direction_ID"]

  const MetropolitanaRenames: map<string, string> := map[
    "id" := "Vehicle ID",
    "line_id" := "Line_ID",
    "lat" := "Latitude",
    "lon" := "Longitude",
    "route_id" := "Route_ID",
    "current_status" := "Current_Status",
    "bearing" := "Direction_ID",
    "pattern_id" := "Pattern_ID",
    "speed" := "Speed",
    "timestamp" := "Timestamp",
    "shift_id" := "Shift_ID",
    "stop_id" := "Stop_ID",
    "trip_id" := "Trip_ID",
    "block_id" := "Travel_ID"]

  /** A flattened protobuf record as a row: every value is present. */
  function Lift(r: map<string, Value>): (row: Row)
    ensures row.Keys == r.Keys
    ensures forall k :: k in r ==> row[k] == Some(r[k])
  {
    map k | k in r :: Some(r[k])
  }

  function LiftAll(recs: seq<map<string, Value>>): (rows: seq<Row>)
    ensures |rows| == |recs|
    ensures forall i :: 0 <= i < |recs| ==> rows[i] == Lift(recs[i])
  {
    seq(|recs|, i requires 0 <= i < |recs| => Lift(recs[i]))
  }

  // ---------------------------------------------------------------- CL ---

  /** Every field of every flattened record is a present cell of the frame. */
  lemma LiftedCells(recs: seq<map<string, Value>>)
    ensures var t := FromRecords(LiftAll(recs));
      forall i, c :: 0 <= i < |recs| && c in recs[i] ==> c in t.columns && t.rows[i][c] == Some(recs[i][c])
  {
    var rows := LiftAll(recs);
    var t := FromRecords(rows);
    forall i, c | 0 <= i < |recs| && c in recs[i]
      ensures c in t.columns && t.rows[i][c] == Some(recs[i][c])
    {
      assert c in rows[i];
    }
  }

  /** The `current_status_text` of one CL row. */
  function StatusTextOf(r: Row): Cell {
    Status.StatusText(Get(r, "current_status"))
  }

  /** The CL frame built from the flattened records, with the upstream
      status text added when some record reports `current_status`. */
  function CarrisFrame(feed: seq<Gtfs.Entity>): (t: Table)
    ensures |t.rows| == |Gtfs.VehicleRecords(feed)|
    ensures t.columns <= FromRecords(LiftAll(Gtfs.VehicleRecords(feed))).columns + {"current_status_text"}
  {
    var t0 := FromRecords(LiftAll(Gtfs.VehicleRecords(feed)));
    if "current_status" in t0.columns
    then SetColumn(t0, "current_status_text", StatusTextOf)
    else t0
  }

  /** Every field of every flattened record is a present cell of the CL
      frame, apart from the derived status text. */
  lemma CarrisFrameCells(feed: seq<Gtfs.Entity>)
    ensures var recs := Gtfs.VehicleRecords(feed);
      var t := CarrisFrame(feed);
      forall i, c :: 0 <= i < |recs| && c in recs[i] && c != "current_status_text" ==>
        c in t.columns && t.rows[i][c] == Some(recs[i][c])
  {
    LiftedCells(Gtfs.VehicleRecords(feed));
  }

  function CarrisInstant(row: Row): Cell {
    Temporal.InstantCell(Temporal.EpochOf(Get(row, "timestamp")))
  }

  function CarrisDate(row: Row): Cell {
    Temporal.DateCell(Temporal.EpochOf(Get(row, "datetime")))
  }

  function CarrisTime(row: Row): Cell {
    Temporal.TimeObjectCell(Temporal.EpochOf(Get(row, "datetime")))
  }

  /** `datetime`, `Date` and `Time` from `timestamp`: each row gets the
      instant of its own timestamp, that instant's calendar day as a date
      object and its time of day as a time object (all NaT without one). */
  function CarrisClock(t: Table): (r: Table)
    ensures r.columns == t.columns + {"datetime", "Date", "Time"} && |r.rows| == |t.rows|
    ensures forall i, c :: 0 <= i < |t.rows| && c in t.columns && c != "datetime" && c != "Date" && c != "Time" ==>
      r.rows[i][c] == t.rows[i][c]
    ensures forall i :: 0 <= i < |t.rows| ==>
      var e := Temporal.EpochOf(Get(t.rows[i], "timestamp"));
      && r.rows[i]["datetime"] == Temporal.InstantCell(e)
      && r.rows[i]["Date"] == Temporal.DateCell(e)
      && r.rows[i]["Time"] == Temporal.TimeObjectCell(e)
  {
    var t1 := SetColumn(t, "datetime", CarrisInstant);
    var t2 := SetColumn(t1, "Date", CarrisDate);
    var t3 := SetColumn(t2, "Time", CarrisTime);
    forall i | 0 <= i < |t.rows|
      ensures var e := Temporal.EpochOf(Get(t.rows[i], "timestamp"));
        && t3.rows[i]["datetime"] == Temporal.InstantCell(e)
        && t3.rows[i]["Date"] == Temporal.DateCell(e)
        && t3.rows[i]["Time"] == Temporal.TimeObjectCell(e)
    {
      Temporal.EpochOfInstant(Temporal.EpochOf(Get(t.rows[i], "timestamp")));
      assert t2.rows[i] == t1.rows[i]["Date" := CarrisDate(t1.rows[i])];
    }
    t3
  }

  /** The CL table ready to be combined: no vehicles stops the run, a
      missing `timestamp` column raises, then the clock columns are added,
      the drop list removed, the labels renamed and the cells relabelled. */
  function PrepareCarris(feed: seq<Gtfs.Entity>): (r: Result<Table, Error>)
    ensures Gtfs.VehicleRecords(feed) == [] ==> r == Failure(NoVehicleData)
    ensures r.Success? ==> |r.value.rows| == |Gtfs.VehicleRecords(feed)|
  {
    if Gtfs.VehicleRecords(feed) == [] then Failure(NoVehicleData)
    else
      var t1 := CarrisFrame(feed);
      if "timestamp" !in t1.columns then Failure(MissingColumn("timestamp"))
      else
        match Rename(Drop(CarrisClock(t1), StrippedSet(CarrisDropList)), CarrisRenames)
        case Failure(e) => Failure(e)
        case Success(t4) => RelabelCarris(t4)
  }

  /** Display labels for the status and the three-character line id; each
      step raises when its column is missing. */
  function RelabelCarris(t4: Table): (r: Result<Table, Error>)
    ensures r.Success? ==> r.value.columns == t4.columns && |r.value.rows| == |t4.rows|
  {
    if "Current_Status" !in t4.columns then Failure(MissingColumn("Current_Status"))
    else
      var t5 := MapColumn(t4, "Current_Status", Status.Relabel);
      if "Line_ID" !in t5.columns then Failure(MissingColumn("Line_ID"))
      else Success(MapColumn(t5, "Line_ID", LineId.TruncateCell))
  }

  /** The line id survives the relabelling, cut to its last three characters. */
  lemma RelabelCarrisLine(t4: Table, j: int)
    requires RelabelCarris(t4).Success? && 0 <= j < |t4.rows|
    ensures "Line_ID" in t4.columns && "Line_ID" in RelabelCarris(t4).value.columns
    ensures RelabelCarris(t4).value.rows[j]["Line_ID"] == LineId.TruncateCell(t4.rows[j]["Line_ID"])
  {
  }

  /** The CL drop names neither the entity id nor the status text. */
  lemma DropLabelsAvoid()
    ensures "entity_id" !in StrippedSet(CarrisDropList)
    ensures "current_status_text" !in StrippedSet(CarrisDropList)
  {
    CarrisDropSet();
    forall k | 0 <= k < |CarrisDropLabels|
      ensures CarrisDropLabels[k] != "entity_id" && CarrisDropLabels[k] != "current_status_text"
    {
      assert CarrisDropLabels[k][0] != 'e';
      assert CarrisDropLabels[k][0] != 'c' || |CarrisDropLabels[k]| != 19;
    }
  }

  /** The two CL renames the later stages rely on. */
  lemma CarrisTargets()
    ensures "entity_id" in CarrisRenames && CarrisRenames["entity_id"] == "Line_ID"
    ensures "current_status_text" in CarrisRenames && CarrisRenames["current_status_text"] == "Current_Status"
  {
  }

  /** A CL field the drop keeps and the rename table maps reaches the
      renamed table under its new label. */
  lemma CarrisRenameField(t1: Table, src: string, dst: string, j: int)
    requires src in t1.columns && 0 <= j < |t1.rows|
    requires src != "datetime" && src != "Date" && src != "Time"
    requires src !in StrippedSet(CarrisDropList) && src in CarrisRenames && CarrisRenames[src] == dst
    requires Rename(Drop(CarrisClock(t1), StrippedSet(CarrisDropList)), CarrisRenames).Success?
    ensures var t4 := Rename(Drop(CarrisClock(t1), StrippedSet(CarrisDropList)), CarrisRenames).value;
      dst in t4.columns && t4.rows[j][dst] == t1.rows[j][src]
  {
    var t2 := CarrisClock(t1);
    var t3 := Drop(t2, StrippedSet(CarrisDropList));
    assert src in t3.columns && t3.rows[j][src] == t1.rows[j][src];
    RenameMoves(t3, CarrisRenames, src, dst, j);
  }

  /** Every flattened record carries its entity's id. */
  lemma CarrisFrameIds(feed: seq<Gtfs.Entity>, j: int)
    requires 0 <= j < |Gtfs.VehicleRecords(feed)|
    ensures j < |Gtfs.VehicleIndices(feed)|
    ensures var i := Gtfs.VehicleIndices(feed)[j];
      && 0 <= i < |feed| && feed[i].vehicle.Some?
      && "entity_id" in CarrisFrame(feed).columns
      && CarrisFrame(feed).rows[j]["entity_id"] == Some(Str(feed[i].id))
  {
    Gtfs.VehicleRecordsInOrder(feed);
    CarrisFrameCells(feed);
  }

  /** In feed order, the j-th CL row belongs to the j-th entity with a
      vehicle, and its `Line_ID` is the last three characters of that
      entity's id. */
  lemma CarrisLineIds(feed: seq<Gtfs.Entity>, j: int)
    requires PrepareCarris(feed).Success? && 0 <= j < |PrepareCarris(feed).value.rows|
    ensures j < |Gtfs.VehicleIndices(feed)| && "Line_ID" in PrepareCarris(feed).value.columns
    ensures var i := Gtfs.VehicleIndices(feed)[j];
      && 0 <= i < |feed| && feed[i].vehicle.Some?
      && PrepareCarris(feed).value.rows[j]["Line_ID"] == Some(Str(LineId.LastThree(feed[i].id)))
  {
    var t1 := CarrisFrame(feed);
    CarrisFrameIds(feed, j);
    DropLabelsAvoid();
    CarrisTargets();
    CarrisRenameField(t1, "entity_id", "Line_ID", j);
    var t4 := Rename(Drop(CarrisClock(t1), StrippedSet(CarrisDropList)), CarrisRenames).value;
    RelabelCarrisLine(t4, j);
  }

  /** With a `current_status` column, every CL row gets the upstream text
      of its own status code. */
  lemma CarrisFrameStatus(feed: seq<Gtfs.Entity>, j: int)
    requires 0 <= j < |Gtfs.VehicleRecords(feed)|
    requires exists i :: 0 <= i < |Gtfs.VehicleRecords(feed)| && "current_status" in Gtfs.VehicleRecords(feed)[i]
    ensures "current_status_text" in CarrisFrame(feed).columns
    ensures CarrisFrame(feed).rows[j]["current_status_text"] ==
      Status.StatusText(Get(Lift(Gtfs.VehicleRecords(feed)[j]), "current_status"))
  {
    var recs := Gtfs.VehicleRecords(feed);
    var t0 := FromRecords(LiftAll(recs));
    var i :| 0 <= i < |recs| && "current_status" in recs[i];
    assert "current_status" in LiftAll(recs)[i];
    assert "current_status" in t0.columns;
    if "current_status" in recs[j] {
      assert t0.rows[j]["current_status"] == Get(Lift(recs[j]), "current_status");
    } else {
      assert "current_status" !in LiftAll(recs)[j];
    }
  }

  /** The status label survives the line-id cut. */
  lemma RelabelCarrisStatus(t4: Table, j: int)
    requires RelabelCarris(t4).Success? && 0 <= j < |t4.rows|
    ensures "Current_Status" in t4.columns && "Current_Status" in RelabelCarris(t4).value.columns
    ensures RelabelCarris(t4).value.rows[j]["Current_Status"] == Status.Relabel(t4.rows[j]["Current_Status"])
  {
  }

  /** When the feed reports `current_status`, the j-th CL row's
      `Current_Status` is the display label of that record's code: codes 0, 1
      and 2 become Approaching, Stationed and In Transit, anything else NaN. */
  lemma CarrisStatuses(feed: seq<Gtfs.Entity>, j: int)
    requires PrepareCarris(feed).Success? && 0 <= j < |PrepareCarris(feed).value.rows|
    requires exists i :: 0 <= i < |Gtfs.VehicleRecords(feed)| && "current_status" in Gtfs.VehicleRecords(feed)[i]
    ensures j < |Gtfs.VehicleRecords(feed)| && "Current_Status" in PrepareCarris(feed).value.columns
    ensures PrepareCarris(feed).value.rows[j]["Current_Status"] ==
      Status.Relabel(Status.StatusText(Get(Lift(Gtfs.VehicleRecords(feed)[j]), "current_status")))
  {
    var t1 := CarrisFrame(feed);
    CarrisFrameStatus(feed, j);
    DropLabelsAvoid();
    CarrisTargets();
    CarrisRenameField(t1, "current_status_text", "Current_Status", j);
    var t4 := Rename(Drop(CarrisClock(t1), StrippedSet(CarrisDropList)), CarrisRenames).value;
    RelabelCarrisStatus(t4, j);
  }

  /** No CL rename produces a `Timestamp` label. */
  lemma CarrisRenamesAvoidTimestamp()
    ensures forall c :: c in CarrisRenames ==> CarrisRenames[c] != "Timestamp"
  {
  }

  /** The frame of lifted records has exactly the records' field names. */
  lemma LiftedColumns(recs: seq<map<string, Value>>)
    ensures forall c :: c in FromRecords(LiftAll(recs)).columns ==> exists i :: 0 <= i < |recs| && c in recs[i]
  {
    var rows := LiftAll(recs);
    forall c | c in FromRecords(rows).columns
      ensures exists i :: 0 <= i < |recs| && c in recs[i]
    {
      var i :| 0 <= i < |rows| && c in rows[i];
      assert rows[i] == Lift(recs[i]);
      assert rows[i].Keys == recs[i].Keys;
    }
  }

  /** A label outside a set and distinct from three others is outside
      their union. */
  lemma OutsideUnion(s: set<string>, x: string, a: string, b: string, c: string)
    requires x !in s && x != a && x != b && x != c
    ensures x !in s + {a, b, c}
  {
  }

  /** A label no flattened record carries, that the CL stages do not
      create and that no CL rename produces, is not a CL column. */
  lemma CarrisLacks(feed: seq<Gtfs.Entity>, x: string)
    requires PrepareCarris(feed).Success?
    requires forall i :: 0 <= i < |Gtfs.VehicleRecords(feed)| ==> x !in Gtfs.VehicleRecords(feed)[i]
    requires x != "current_status_text" && x != "datetime" && x != "Date" && x != "Time"
    requires forall c :: c in CarrisRenames ==> CarrisRenames[c] != x
    ensures x !in PrepareCarris(feed).value.columns
  {
    var recs := Gtfs.VehicleRecords(feed);
    var t0 := FromRecords(LiftAll(recs));
    LiftedColumns(recs);
    assert x !in t0.columns;
    var t1 := CarrisFrame(feed);
    assert x !in t1.columns;
    var t2 := CarrisClock(t1);
    OutsideUnion(t1.columns, x, "datetime", "Date", "Time");
    var t3 := Drop(t2, StrippedSet(CarrisDropList));
    RenameAvoids(t3, CarrisRenames, x);
  }

  /** Unless a flattened field is itself called `Timestamp`, the CL table has
      no `Timestamp` column: the feed's lower-case `timestamp` is dropped. */
  lemma CarrisNoTimestamp(feed: seq<Gtfs.Entity>)
    requires PrepareCarris(feed).Success?
    requires forall i :: 0 <= i < |Gtfs.VehicleRecords(feed)| ==> "Timestamp" !in Gtfs.VehicleRecords(feed)[i]
    ensures "Timestamp" !in PrepareCarris(feed).value.columns
  {
    CarrisRenamesAvoidTimestamp();
    CarrisLacks(feed, "Timestamp");
  }

  /** No CL rename produces a `Travel_ID` label. */
  lemma CarrisRenamesAvoidTravel()
    ensures forall c :: c in CarrisRenames ==> CarrisRenames[c] != "Travel_ID"
  {
  }

  /** Unless a flattened field is itself called `Travel_ID`, the CL table
      has no `Travel_ID` column: no CL field is renamed to it. */
  lemma CarrisNoTravel(feed: seq<Gtfs.Entity>)
    requires PrepareCarris(feed).Success?
    requires forall i :: 0 <= i < |Gtfs.VehicleRecords(feed)| ==> "Travel_ID" !in Gtfs.VehicleRecords(feed)[i]
    ensures "Travel_ID" !in PrepareCarris(feed).value.columns
  {
    CarrisRenamesAvoidTravel();
    CarrisLacks(feed, "Travel_ID");
  }

  /** A feed whose vehicles all lack `timestamp` stops the run with a
      missing-column error as soon as the instants are computed. */
  lemma CarrisNeedsTimestamp(feed: seq<Gtfs.Entity>)
    requires Gtfs.VehicleRecords(feed) != []
    requires forall i :: 0 <= i < |Gtfs.VehicleRecords(feed)| ==> "timestamp" !in Gtfs.VehicleRecords(feed)[i]
    ensures PrepareCarris(feed) == Failure(MissingColumn("timestamp"))
  {
    LiftedColumns(Gtfs.VehicleRecords(feed));
  }

  /** A CL table that was built passed every stage. */
  lemma CarrisStages(feed: seq<Gtfs.Entity>)
    requires PrepareCarris(feed).Success?
    ensures var t3 := Drop(CarrisClock(CarrisFrame(feed)), StrippedSet(CarrisDropList));
      && Rename(t3, CarrisRenames).Success?
      && RelabelCarris(Rename(t3, CarrisRenames).value).Success?
  {
    var t1 := CarrisFrame(feed);
    var rn := Rename(Drop(CarrisClock(t1), StrippedSet(CarrisDropList)), CarrisRenames);
    assert Gtfs.VehicleRecords(feed) != [] && "timestamp" in t1.columns;
    assert PrepareCarris(feed) == match rn case Failure(e) => Failure(e) case Success(t4) => RelabelCarris(t4);
  }

  /** The only CL rename that produces `Current_Status`. */
  lemma CarrisStatusSource(c: string)
    requires c in CarrisRenames && CarrisRenames[c] == "Current_Status"
    ensures c == "current_status_text"
  {
  }

  /** The CL table is only built when some vehicle reports a status: a feed
      without `current_status` gets no status text, only a warning, and the
      relabelling of `Current_Status` then raises. */
  lemma CarrisNeedsStatus(feed: seq<Gtfs.Entity>)
    requires PrepareCarris(feed).Success?
    ensures var recs := Gtfs.VehicleRecords(feed);
      exists i :: 0 <= i < |recs| && ("current_status" in recs[i] || "current_status_text" in recs[i] || "Current_Status" in recs[i])
  {
    CarrisStages(feed);
    var t1 := CarrisFrame(feed);
    StatusLabelSource(t1);
    CarrisFrameStatusSource(feed);
  }

  /** `Current_Status` after the CL rename comes from the status text or
      from a field already called so. */
  lemma StatusLabelSource(t1: Table)
    requires var t3 := Drop(CarrisClock(t1), StrippedSet(CarrisDropList));
      Rename(t3, CarrisRenames).Success? && RelabelCarris(Rename(t3, CarrisRenames).value).Success?
    ensures "current_status_text" in t1.columns || "Current_Status" in t1.columns
  {
    var t3 := Drop(CarrisClock(t1), StrippedSet(CarrisDropList));
    var t4 := Rename(t3, CarrisRenames).value;
    assert "Current_Status" in t4.columns;
    var c :| c in t3.columns && NewName(CarrisRenames, c) == "Current_Status";
    if c in CarrisRenames {
      CarrisStatusSource(c);
    }
  }

  /** The CL frame has a status text or a `Current_Status` column only when
      some record reports a status. */
  lemma CarrisFrameStatusSource(feed: seq<Gtfs.Entity>)
    requires "current_status_text" in CarrisFrame(feed).columns || "Current_Status" in CarrisFrame(feed).columns
    ensures var recs := Gtfs.VehicleRecords(feed);
      exists i :: 0 <= i < |recs| && ("current_status" in recs[i] || "current_status_text" in recs[i] || "Current_Status" in recs[i])
  {
    var recs := Gtfs.VehicleRecords(feed);
    var t0 := FromRecords(LiftAll(recs));
    CarrisFrameColumns(feed);
    var c := if "current_status_text" in t0.columns then "current_status_text"
             else if "Current_Status" in t0.columns then "Current_Status"
             else "current_status";
    assert c in t0.columns;
    LiftedColumn(recs, c);
    var i :| 0 <= i < |recs| && c in recs[i];
    assert "current_status" in recs[i] || "current_status_text" in recs[i] || "Current_Status" in recs[i];
  }

  /** The CL frame's columns: the records' fields, plus the status text
      when some record reports `current_status`. */
  lemma CarrisFrameColumns(feed: seq<Gtfs.Entity>)
    ensures var t0 := FromRecords(LiftAll(Gtfs.VehicleRecords(feed)));
      CarrisFrame(feed).columns == t0.columns + (if "current_status" in t0.columns then {"current_status_text"} else {})
  {
  }

  /** A column of the lifted frame is a field of some record. */
  lemma LiftedColumn(recs: seq<map<string, Value>>, c: string)
    requires c in FromRecords(LiftAll(recs)).columns
    ensures exists i :: 0 <= i < |recs| && c in recs[i]
  {
    LiftedColumns(recs);
  }

  // ---------------------------------------------------------------- CM ---

  /** The CM table: the JSON records as a frame, renamed, with display
      status labels. An empty response leaves an empty frame, which has no
      `Current_Status` to relabel. */
  function PrepareMetropolitana(recs: seq<Row>): (r: Result<Table, Error>)
    ensures recs == [] ==> r == Failure(MissingColumn("Current_Status"))
    ensures r.Success? ==> |r.value.rows| == |recs|
  {
    match Rename(FromRecords(recs), MetropolitanaRenames)
    case Failure(e) => Failure(e)
    case Success(t1) =>
      if "Current_Status" !in t1.columns then Failure(MissingColumn("Current_Status"))
      else Success(MapColumn(t1, "Current_Status", Status.Relabel))
  }

  /** The only CM rename that produces `Current_Status`. */
  lemma MetropolitanaStatusSource(c: string)
    requires c in MetropolitanaRenames && MetropolitanaRenames[c] == "Current_Status"
    ensures c == "current_status"
  {
  }

  /** The CM table is only built when some response record carries a status:
      otherwise the relabelling raises, or the rename clashes first. */
  lemma MetropolitanaNeedsStatus(recs: seq<Row>)
    ensures PrepareMetropolitana(recs).Failure? ==>
      PrepareMetropolitana(recs).error in {MissingColumn("Current_Status"), DuplicateColumn}
    ensures PrepareMetropolitana(recs).Success? ==>
      exists i :: 0 <= i < |recs| && ("current_status" in recs[i] || "Current_Status" in recs[i])
  {
    var t0 := FromRecords(recs);
    if PrepareMetropolitana(recs).Success? {
      var t1 := Rename(t0, MetropolitanaRenames).value;
      assert "Current_Status" in t1.columns;
      var c :| c in t0.columns && NewName(MetropolitanaRenames, c) == "Current_Status";
      if c in MetropolitanaRenames {
        MetropolitanaStatusSource(c);
      }
      var i :| 0 <= i < |recs| && c in recs[i];
    }
  }

  /** A CM field the rename table names reaches the table under its new
      label, row for row. */
  lemma MetropolitanaRenamed(recs: seq<Row>, src: string, i: int)
    requires Rename(FromRecords(recs), MetropolitanaRenames).Success?
    requires src in MetropolitanaRenames && 0 <= i < |recs|
    requires exists k :: 0 <= k < |recs| && src in recs[k]
    ensures var t1 := Rename(FromRecords(recs), MetropolitanaRenames).value;
      MetropolitanaRenames[src] in t1.columns && t1.rows[i][MetropolitanaRenames[src]] == Get(recs[i], src)
  {
    var t0 := FromRecords(recs);
    assert src in t0.columns;
    assert NewName(MetropolitanaRenames, src) == MetropolitanaRenames[src];
  }

  /** The three CM labels the later stages rely on. */
  lemma MetropolitanaTargets()
    ensures MetropolitanaRenames["current_status"] == "Current_Status"
    ensures MetropolitanaRenames["line_id"] == "Line_ID"
    ensures MetropolitanaRenames["timestamp"] == "Timestamp"
  {
  }

  /** Each CM row keeps its own record's status, relabelled. */
  lemma MetropolitanaStatus(recs: seq<Row>, i: int)
    requires PrepareMetropolitana(recs).Success? && 0 <= i < |recs|
    requires exists k :: 0 <= k < |recs| && "current_status" in recs[k]
    ensures var cm := PrepareMetropolitana(recs).value;
      "Current_Status" in cm.columns && cm.rows[i]["Current_Status"] == Status.Relabel(Get(recs[i], "current_status"))
  {
    MetropolitanaTargets();
    MetropolitanaRenamed(recs, "current_status", i);
  }

  /** A renamed CM field other than the status reaches the CM table unchanged. */
  lemma MetropolitanaField(recs: seq<Row>, src: string, dst: string, i: int)
    requires PrepareMetropolitana(recs).Success? && 0 <= i < |recs|
    requires src in MetropolitanaRenames && MetropolitanaRenames[src] == dst && dst != "Current_Status"
    requires exists k :: 0 <= k < |recs| && src in recs[k]
    ensures var cm := PrepareMetropolitana(recs).value;
      dst in cm.columns && Get(cm.rows[i], dst) == Get(recs[i], src)
  {
    MetropolitanaRenamed(recs, src, i);
    var t1 := Rename(FromRecords(recs), MetropolitanaRenames).value;
    MapColumnKeeps(t1, "Current_Status", Status.Relabel, dst, i);
  }

  // ------------------------------------------------------- reconcile ---

  /** CL reindexed onto CM's columns and appended after CM. */
  function Combine(cm: Table, cl: Table): (r: Table)
    ensures r.columns == cm.columns
    ensures |r.rows| == |cm.rows| + |cl.rows|
    ensures forall i :: 0 <= i < |cm.rows| ==> r.rows[i] == cm.rows[i]
    ensures forall i, c :: 0 <= i < |cl.rows| && c in cm.columns ==>
              r.rows[|cm.rows| + i][c] == (if c in cl.columns then cl.rows[i][c] else None)
  {
    var aligned := Reindex(cl, cm.columns);
    var r := Concat(cm, aligned);
    assert forall i :: 0 <= i < |cm.rows| ==> r.rows[i].Keys == cm.rows[i].Keys;
    r
  }

  const ColorRenames: map<string, string> := map["LineID" := "Line_ID"]

  /** The columns the merge takes from the colour table. */
  const ColorKeep: seq<string> := ["Line_ID", "Color_ID", "Operator"]

  /** The label a colour-table column ends with: stripped, then `LineID`
      renamed to `Line_ID`. */
  function ColorLabel(c: string): string {
    NewName(ColorRenames, Text.Strip(c))
  }

  /** The labels of the colour table after the strip and the rename. */
  function ColorLabels(raw: Table): set<string> {
    set c | c in raw.columns :: ColorLabel(c)
  }

  /** No two colour-table columns end with one label. */
  predicate ColorLabelsDistinct(raw: Table) {
    forall a, b :: a in raw.columns && b in raw.columns && a != b ==> ColorLabel(a) != ColorLabel(b)
  }

  /** The colour table with its labels stripped, `LineID` renamed and only
      the three join columns kept: one row per CSV row, in order, each
      holding its CSV cells under their new labels. */
  function PrepareColors(raw: Table): (r: Result<Table, Error>)
    ensures r.Success? ==> r.value.columns == {Join.LineKey, Join.ColorId, Join.Operator}
    ensures r.Success? ==> |r.value.rows| == |raw.rows|
    ensures r.Success? ==> forall i, c :: 0 <= i < |raw.rows| && c in raw.columns && ColorLabel(c) in r.value.columns ==>
      r.value.rows[i][ColorLabel(c)] == raw.rows[i][c]
  {
    match StripNames(raw)
    case Failure(e) => Failure(e)
    case Success(t1) =>
      match Rename(t1, ColorRenames)
      case Failure(e) => Failure(e)
      case Success(t2) =>
        assert (set k | k in ColorKeep) == {Join.LineKey, Join.ColorId, Join.Operator};
        var r := Select(t2, ColorKeep);
        if r.Success? then
          ColorCells(raw, t1, t2, r.value);
          r
        else r
  }

  /** Every cell of the selected colour table is the CSV cell whose column
      ends with that label. */
  lemma ColorCells(raw: Table, t1: Table, t2: Table, sel: Table)
    requires StripNames(raw) == Success(t1) && Rename(t1, ColorRenames) == Success(t2)
    requires Select(t2, ColorKeep) == Success(sel)
    ensures |sel.rows| == |raw.rows|
    ensures forall i, c :: 0 <= i < |raw.rows| && c in raw.columns && ColorLabel(c) in sel.columns ==>
      sel.rows[i][ColorLabel(c)] == raw.rows[i][c]
  {
    forall i, c | 0 <= i < |raw.rows| && c in raw.columns && ColorLabel(c) in sel.columns
      ensures sel.rows[i][ColorLabel(c)] == raw.rows[i][c]
    {
      ColorCell(raw, t1, t2, sel, i, c);
    }
  }

  /** One step of `ColorCells`: a CSV cell through the strip, the rename
      and the selection. */
  lemma ColorCell(raw: Table, t1: Table, t2: Table, sel: Table, i: int, c: string)
    requires StripNames(raw) == Success(t1) && Rename(t1, ColorRenames) == Success(t2)
    requires Select(t2, ColorKeep) == Success(sel)
    requires 0 <= i < |raw.rows| && c in raw.columns && ColorLabel(c) in sel.columns
    ensures i < |sel.rows| && sel.rows[i][ColorLabel(c)] == raw.rows[i][c]
  {
    var x := ColorStripCell(raw, t1, i, c);
    ColorRenameCell(t1, t2, i, x);
  }

  /** A CSV cell under its stripped label. */
  lemma ColorStripCell(raw: Table, t1: Table, i: int, c: string) returns (x: string)
    requires StripNames(raw) == Success(t1)
    requires 0 <= i < |raw.rows| && c in raw.columns
    ensures x == Text.Strip(c) && x in t1.columns && i < |t1.rows| && t1.rows[i][x] == raw.rows[i][c]
  {
    x := Text.Strip(c);
  }

  /** A stripped cell under its renamed label. */
  lemma ColorRenameCell(t1: Table, t2: Table, i: int, x: string)
    requires Rename(t1, ColorRenames) == Success(t2)
    requires 0 <= i < |t1.rows| && x in t1.columns
    ensures NewName(ColorRenames, x) in t2.columns && i < |t2.rows|
    ensures t2.rows[i][NewName(ColorRenames, x)] == t1.rows[i][x]
  {
  }

  /** Distinct final labels let the strip and the rename both succeed. */
  lemma ColorRelabelOk(raw: Table)
    requires ColorLabelsDistinct(raw)
    ensures StripNames(raw).Success? && Rename(StripNames(raw).value, ColorRenames).Success?
  {
    forall a, b | a in raw.columns && b in raw.columns && a != b
      ensures Text.Strip(a) != Text.Strip(b)
    {
      assert ColorLabel(a) != ColorLabel(b);
    }
    assert StripNames(raw).Success?;
    var t1 := StripNames(raw).value;
    forall x, y | x in t1.columns && y in t1.columns && x != y
      ensures NewName(ColorRenames, x) != NewName(ColorRenames, y)
    {
      var a := StrippedFrom(raw, t1, x);
      var b := StrippedFrom(raw, t1, y);
      assert ColorLabel(a) != ColorLabel(b);
    }
    assert InjectiveOn(ColorRenames, t1.columns);
  }

  /** A stripped label comes from some column of the CSV. */
  lemma StrippedFrom(raw: Table, t1: Table, x: string) returns (a: string)
    requires StripNames(raw) == Success(t1) && x in t1.columns
    ensures a in raw.columns && Text.Strip(a) == x
  {
    a :| a in raw.columns && Text.Strip(a) == x;
  }

  /** A strip and a rename that both succeed leave distinct final labels. */
  lemma ColorRelabelDistinct(raw: Table)
    requires StripNames(raw).Success? && Rename(StripNames(raw).value, ColorRenames).Success?
    ensures ColorLabelsDistinct(raw)
  {
    var t1 := StripNames(raw).value;
    forall a, b | a in raw.columns && b in raw.columns && a != b
      ensures ColorLabel(a) != ColorLabel(b)
    {
      assert Text.Strip(a) != Text.Strip(b);
      assert Text.Strip(a) in t1.columns && Text.Strip(b) in t1.columns;
    }
  }

  /** The strip and the rename both succeed exactly when no two columns end
      with one label. */
  lemma ColorRelabelIff(raw: Table)
    ensures ColorLabelsDistinct(raw) <==>
      StripNames(raw).Success? && Rename(StripNames(raw).value, ColorRenames).Success?
  {
    if ColorLabelsDistinct(raw) {
      ColorRelabelOk(raw);
    }
    if StripNames(raw).Success? && Rename(StripNames(raw).value, ColorRenames).Success? {
      ColorRelabelDistinct(raw);
    }
  }

  /** After the strip and the rename the colour table's labels are the
      final labels of its CSV columns. */
  lemma ColorColumns(raw: Table, t1: Table, t2: Table)
    requires StripNames(raw) == Success(t1) && Rename(t1, ColorRenames) == Success(t2)
    ensures t2.columns == ColorLabels(raw)
  {
    forall x | x in t2.columns ensures x in ColorLabels(raw) {
      var y :| y in t1.columns && NewName(ColorRenames, y) == x;
      var c := StrippedFrom(raw, t1, y);
      assert ColorLabel(c) == x;
    }
    forall x | x in ColorLabels(raw) ensures x in t2.columns {
      var c :| c in raw.columns && ColorLabel(c) == x;
      assert Text.Strip(c) in t1.columns;
    }
  }

  /** When the colour table is prepared and when it raises: two columns
      that end with one label are a `DuplicateColumn`, and otherwise a
      missing `Line_ID`, `Color_ID` or `Operator` is the KeyError of the
      selection at line 269. */
  lemma PrepareColorsOutcome(raw: Table)
    ensures PrepareColors(raw).Success? <==>
      ColorLabelsDistinct(raw) && forall k :: 0 <= k < |ColorKeep| ==> ColorKeep[k] in ColorLabels(raw)
    ensures !ColorLabelsDistinct(raw) ==> PrepareColors(raw) == Failure(DuplicateColumn)
    ensures ColorLabelsDistinct(raw) && PrepareColors(raw).Failure? ==>
      var e := PrepareColors(raw).error;
      e.MissingColumn? && e.name in ColorKeep && e.name !in ColorLabels(raw)
  {
    ColorRelabelIff(raw);
    match StripNames(raw)
    case Failure(e) =>
      assert PrepareColors(raw) == Failure(DuplicateColumn);
    case Success(t1) =>
      match Rename(t1, ColorRenames)
      case Failure(e) =>
        assert PrepareColors(raw) == Failure(DuplicateColumn);
      case Success(t2) =>
        ColorColumns(raw, t1, t2);
        assert PrepareColors(raw) == Select(t2, ColorKeep);
  }

  /** Colour rows whose `Line_ID` cells differ pairwise give a prepared
      table with unique join keys. */
  lemma ColorKeysUnique(raw: Table, lc: string)
    requires PrepareColors(raw).Success?
    requires lc in raw.columns && ColorLabel(lc) == Join.LineKey
    requires forall i, j :: 0 <= i < j < |raw.rows| ==> raw.rows[i][lc] != raw.rows[j][lc]
    ensures Join.UniqueKeys(PrepareColors(raw).value.rows)
  {
    var rows := PrepareColors(raw).value.rows;
    forall i, j | 0 <= i < j < |rows|
      ensures Get(rows[i], Join.LineKey) != Get(rows[j], Join.LineKey)
    {
      assert rows[i][Join.LineKey] == raw.rows[i][lc];
      assert rows[j][Join.LineKey] == raw.rows[j][lc];
    }
  }

  // -------------------------------------------------------- enrich ---

  /** The columns the time-field step writes. */
  const TimeLabels: set<string> := {"Datetime", "Date", "Time", "Day", "Workday"}

  /** A label whose first letter no time label starts with is not one. */
  lemma OutsideTimeLabels(c: string)
    requires c != [] && c[0] != 'D' && c[0] != 'T' && c[0] != 'W'
    ensures c !in TimeLabels
  {
    assert forall k :: k in TimeLabels ==> k[0] in {'D', 'T', 'W'};
  }

  function DatetimeField(row: Row): Cell {
    Temporal.InstantCell(Temporal.EpochOf(Get(row, "Timestamp")))
  }

  function DateField(row: Row): Cell {
    Temporal.DateCell(Temporal.EpochOf(Get(row, "Datetime")))
  }

  function TimeField(row: Row): Cell {
    Temporal.ClockCell(Temporal.EpochOf(Get(row, "Datetime")))
  }

  function DayField(row: Row): Cell {
    Temporal.DayNameCell(Temporal.EpochOf(Get(row, "Datetime")))
  }

  function WorkdayField(row: Row): Cell {
    Temporal.WorkdayCell(Temporal.EpochOf(Get(row, "Datetime")))
  }

  /** The time fields of every row, derived only when the table has a
      `Timestamp` column. */
  function AddTimeFields(t: Table): (r: Table)
    ensures |r.rows| == |t.rows|
    ensures "Timestamp" !in t.columns ==> r == t
    ensures "Timestamp" in t.columns ==> r.columns == t.columns + TimeLabels
  {
    if "Timestamp" !in t.columns then t
    else
      var t1 := SetColumn(t, "Datetime", DatetimeField);
      var t2 := SetColumn(t1, "Date", DateField);
      var t3 := SetColumn(t2, "Time", TimeField);
      var t4 := SetColumn(t3, "Day", DayField);
      SetColumn(t4, "Workday", WorkdayField)
  }

  /** Each row's date, time, day and workday come from its own timestamp. */
  lemma TimeFieldsCells(t: Table, i: int)
    requires "Timestamp" in t.columns && 0 <= i < |t.rows|
    ensures var r := AddTimeFields(t);
      var e := Temporal.EpochOf(t.rows[i]["Timestamp"]);
      && r.rows[i]["Date"] == Temporal.DateCell(e)
      && r.rows[i]["Time"] == Temporal.ClockCell(e)
      && r.rows[i]["Day"] == Temporal.DayNameCell(e)
      && r.rows[i]["Workday"] == Temporal.WorkdayCell(e)
  {
    var e := Temporal.EpochOf(t.rows[i]["Timestamp"]);
    var row1 := t.rows[i]["Datetime" := DatetimeField(t.rows[i])];
    assert Get(t.rows[i], "Timestamp") == t.rows[i]["Timestamp"];
    Temporal.EpochOfInstant(e);
    assert Temporal.EpochOf(Get(row1, "Datetime")) == e;
    var row2 := row1["Date" := DateField(row1)];
    assert Get(row2, "Datetime") == row1["Datetime"];
    var row3 := row2["Time" := TimeField(row2)];
    assert Get(row3, "Datetime") == row1["Datetime"];
    var row4 := row3["Day" := DayField(row3)];
    assert Get(row4, "Datetime") == row1["Datetime"];
    var row5 := row4["Workday" := WorkdayField(row4)];
    assert AddTimeFields(t).rows[i] == row5;
  }

  /** The time fields leave every other column alone. */
  lemma TimeFieldsKeep(t: Table, c: string, i: int)
    requires c !in TimeLabels && 0 <= i < |t.rows|
    ensures c in AddTimeFields(t).columns <==> c in t.columns
    ensures c in t.columns ==> AddTimeFields(t).rows[i][c] == t.rows[i][c]
  {
  }

  /** The district of every row, looked up from its coordinates. */
  function AddDistrict(t: Table, geocode: (Value, Value) -> District.Lookup): (r: Result<Table, Error>)
    ensures "Latitude" in t.columns && "Longitude" in t.columns <==> r.Success?
    ensures r.Success? ==>
      && r.value.columns == t.columns + {"District"} && |r.value.rows| == |t.rows|
      && forall i :: 0 <= i < |t.rows| ==>
           r.value.rows[i] == t.rows[i]["District" := Some(Str(District.GetDistrict(
             t.rows[i]["Latitude"], t.rows[i]["Longitude"], geocode)))]
  {
    if "Latitude" !in t.columns then Failure(MissingColumn("Latitude"))
    else if "Longitude" !in t.columns then Failure(MissingColumn("Longitude"))
    else Success(SetColumn(t, "District", (row: Row) =>
      Some(Str(District.GetDistrict(Get(row, "Latitude"), Get(row, "Longitude"), geocode)))))
  }

  /** "Unknown" colour and operator when the columns are missing. */
  function AddDefaults(t: Table): (r: Table)
    ensures r.columns == t.columns + {"Color_ID", "Operator"} && |r.rows| == |t.rows|
    ensures forall i, c :: 0 <= i < |t.rows| && c in t.columns ==> r.rows[i][c] == t.rows[i][c]
    ensures forall i :: 0 <= i < |t.rows| && "Color_ID" !in t.columns ==> r.rows[i]["Color_ID"] == Some(Str("Unknown"))
    ensures forall i :: 0 <= i < |t.rows| && "Operator" !in t.columns ==> r.rows[i]["Operator"] == Some(Str("Unknown"))
  {
    var t1 := if "Color_ID" !in t.columns then SetColumn(t, "Color_ID", (row: Row) => Some(Str("Unknown"))) else t;
    if "Operator" !in t1.columns then SetColumn(t1, "Operator", (row: Row) => Some(Str("Unknown"))) else t1
  }

  const FinalColumns: seq<string> :=
    ["Line_ID", "Color_ID", "Operator", "Current_Status", "Latitude", "Longitude", "Speed",
     "Stop_ID", "District", "Travel_ID", "Date", "Time", "Day", "Workday"]

  const LateDropList: seq<string> :=
    ["Timestamp", "Datetime", "Variant", "Serial", "Route_Code", "Trip_Serial", "Trip_Date",
     "Vehicle_Code", "Route", "Original_ID", "Start_Time", "School_Code", "Prefix"]

  /** No label of the later drop is one of the final columns. */
  lemma LateDropDisjoint()
    ensures forall i :: 0 <= i < |LateDropList| ==> LateDropList[i] !in FinalColumns
  {
  }

  /** The later drop finds none of its labels once the final selection has
      been made, so it changes nothing. */
  lemma LateDropIsNoop(t: Table)
    requires t.columns == set k | k in FinalColumns
    ensures Drop(t, set k | k in LateDropList) == t
  {
    var late := set k | k in LateDropList;
    LateDropDisjoint();
    assert late * t.columns == {};
    DropAbsent(t, late);
  }

  // ---------------------------------------------------------- sink ---

  /** One row of `Bus_Status` as the insert sends it. */
  datatype SinkRecord = SinkRecord(
    lineId: int, currentStatus: Value, latitude: real, longitude: real, speed: real,
    stopId: int, district: Value, travelId: Value, date: Option<int>, time: Option<nat>,
    day: int, workday: int)

  /** The record one final row becomes: the ids and `Travel_ID` pass
      through the `'string'` dtype and `Workday` through `'bool'` before
      the sink's coercions. An id cell holding an integer, or a text that
      spells one, is stored as that integer and NaN as 0; a float
      coordinate or speed is stored as is and NaN as 0.0; status and
      district texts are kept; a missing `Travel_ID` is stored as the text
      "<NA>"; a calendar day is the stored date; a missing or already
      parsed time becomes NaT; a `Day` or `Workday` of NaN becomes 0
      and 1. */
  function ToSink(r: Row): (s: SinkRecord)
    ensures Get(r, "Line_ID").None? ==> s.lineId == 0
    ensures var c := Get(r, "Line_ID"); c.Some? && c.value.Int? ==> s.lineId == c.value.i
    ensures var c := Get(r, "Line_ID"); c.Some? && c.value.Str? && Text.ParseInt(c.value.s).Some? ==>
      s.lineId == Text.ParseInt(c.value.s).value
    ensures Get(r, "Stop_ID").None? ==> s.stopId == 0
    ensures var c := Get(r, "Stop_ID"); c.Some? && c.value.Int? ==> s.stopId == c.value.i
    ensures var c := Get(r, "Stop_ID"); c.Some? && c.value.Str? && Text.ParseInt(c.value.s).Some? ==>
      s.stopId == Text.ParseInt(c.value.s).value
    ensures var c := Get(r, "Current_Status"); c.Some? && c.value.Str? ==> s.currentStatus == c.value
    ensures Get(r, "Current_Status").None? ==> s.currentStatus == Str("nan")
    ensures var c := Get(r, "Latitude"); (c.None? ==> s.latitude == 0.0) && (c.Some? && c.value.Float? ==> s.latitude == c.value.x)
    ensures var c := Get(r, "Longitude"); (c.None? ==> s.longitude == 0.0) && (c.Some? && c.value.Float? ==> s.longitude == c.value.x)
    ensures var c := Get(r, "Speed"); (c.None? ==> s.speed == 0.0) && (c.Some? && c.value.Float? ==> s.speed == c.value.x)
    ensures var c := Get(r, "District"); c.Some? && c.value.Str? ==> s.district == c.value
    ensures Get(r, "Travel_ID").None? ==> s.travelId == Str("<NA>")
    ensures var c := Get(r, "Travel_ID"); c.Some? && c.value.Str? ==> s.travelId == c.value
    ensures s.date.Some? <==> Get(r, "Date").Some? && Get(r, "Date").value.CalendarDate?
    ensures s.date.Some? ==> s.date.value == Get(r, "Date").value.days
    ensures var c := Get(r, "Time"); c.None? || c.value.Clock? ==> s.time.None?
    ensures Get(r, "Day").None? ==> s.day == 0
    ensures Get(r, "Workday").None? ==> s.workday == 1
    ensures var c := Get(r, "Workday"); c.Some? && c.value.Bool? ==> s.workday == (if c.value.b then 1 else 0)
  {
    SinkRecord(
      Coerce.CoerceId(Get(r, "Line_ID")),
      Coerce.ToText(Get(r, "Current_Status")),
      Coerce.CoerceFloat(Get(r, "Latitude")),
      Coerce.CoerceFloat(Get(r, "Longitude")),
      Coerce.CoerceFloat(Get(r, "Speed")),
      Coerce.CoerceId(Get(r, "Stop_ID")),
      Coerce.ToText(Get(r, "District")),
      Coerce.StringText(Get(r, "Travel_ID")),
      Coerce.DateOf(Get(r, "Date")),
      Coerce.TimeOf(Get(r, "Time")),
      Coerce.CoerceInt(Get(r, "Day")),
      Coerce.WorkdayFlag(Get(r, "Workday")))
  }

  predicate IsClock(c: Cell) {
    c.Some? && c.value.Clock?
  }

  /** One `Time` cell after the column's parse has been seen to succeed. */
  function ReparsedTime(c: Cell): Cell {
    match Coerce.ToClock(c) case Success(v) => v case Failure(_) => None
  }

  /** The `Time` re-parse before the sink: reading the first cell raises on
      a table without rows; unless that cell already holds a time of day,
      the whole column is parsed into time-of-day objects, and one value the
      parse cannot read raises. Every other column is left alone. */
  function ClockObjects(t: Table): (r: Result<Table, Error>)
    ensures "Time" !in t.columns ==> r == Failure(MissingColumn("Time"))
    ensures "Time" in t.columns && t.rows == [] ==> r == Failure(NoRows)
    ensures r.Success? ==> "Time" in t.columns && t.rows != []
    ensures r.Success? ==> r.value.columns == t.columns && |r.value.rows| == |t.rows|
    ensures r.Success? ==> forall i, c :: 0 <= i < |t.rows| && c in t.columns && c != "Time" ==>
              r.value.rows[i][c] == t.rows[i][c]
    ensures r.Success? && IsClock(t.rows[0]["Time"]) ==> r.value == t
    ensures r.Failure? ==> r.error in {MissingColumn("Time"), NoRows, UnparsableTime}
  {
    if "Time" !in t.columns then Failure(MissingColumn("Time"))
    else if t.rows == [] then Failure(NoRows)
    else if IsClock(t.rows[0]["Time"]) then Success(t)
    else if !TimesParse(t.rows) then Failure(UnparsableTime)
    else Success(MapColumn(t, "Time", ReparsedTime))
  }

  /** When the first `Time` cell is not yet a time of day, the re-parse
      succeeds exactly when every cell parses, and then each row's `Time` is
      its own cell parsed. */
  lemma ClockObjectsParse(t: Table)
    requires "Time" in t.columns && t.rows != [] && !IsClock(t.rows[0]["Time"])
    ensures ClockObjects(t).Success? <==> TimesParse(t.rows)
    ensures ClockObjects(t).Success? ==> Reparsed(t.rows, ClockObjects(t).value.rows)
  {
    if TimesParse(t.rows) {
      var r := MapColumn(t, "Time", ReparsedTime);
      forall i | 0 <= i < |t.rows|
        ensures Coerce.ToClock(Get(t.rows[i], "Time")) == Success(Get(r.rows[i], "Time"))
      {
        assert Coerce.ToClock(Get(t.rows[i], "Time")).Success?;
      }
    }
  }

  /** Every row's `Time` can be parsed into a time of day. */
  predicate TimesParse(rows: seq<Row>) {
    forall i :: 0 <= i < |rows| ==> Coerce.ToClock(Get(rows[i], "Time")).Success?
  }

  /** Row for row, `after`'s `Time` is the parsed `Time` of `before`. */
  predicate Reparsed(before: seq<Row>, after: seq<Row>) {
    |after| == |before| &&
    forall i :: 0 <= i < |before| ==> Coerce.ToClock(Get(before[i], "Time")) == Success(Get(after[i], "Time"))
  }

  function ToSinkAll(t: Table): (out: seq<SinkRecord>)
    ensures |out| == |t.rows|
    ensures forall i :: 0 <= i < |t.rows| ==> out[i] == ToSink(t.rows[i])
  {
    seq(|t.rows|, i requires 0 <= i < |t.rows| => ToSink(t.rows[i]))
  }

  /** Everything after the colour join: time fields, district, label
      strip, defaults, final selection and the later drop. */
  function Finish(joined: Table, geocode: (Value, Value) -> District.Lookup): (r: Result<Table, Error>)
    ensures r.Success? ==> |r.value.rows| == |joined.rows|
  {
    match AddDistrict(AddTimeFields(joined), geocode)
    case Failure(e) => Failure(e)
    case Success(located) => Tidy(located)
  }

  /** From the two prepared feed tables to the inserted records. */
  function Reconcile(cm: Table, cl: Table, colorsRaw: Table,
                     geocode: (Value, Value) -> District.Lookup): (r: Result<seq<SinkRecord>, Error>)
    ensures r.Success? ==> |r.value| >= |cm.rows| + |cl.rows|
    ensures PrepareColors(colorsRaw).Success? && Join.UniqueKeys(PrepareColors(colorsRaw).value.rows) && r.Success? ==>
      |r.value| == |cm.rows| + |cl.rows|
  {
    var bus := Combine(cm, cl);
    var colors :- PrepareColors(colorsRaw);
    var joined :- Join.LeftJoin(bus, colors);
    var finished :- Finish(joined, geocode);
    var recast :- ClockObjects(finished);
    Success(ToSinkAll(recast))
  }

  /** The stages after the district: strip, defaults, selection and the
      later drop. */
  function Tidy(located: Table): (r: Result<Table, Error>)
    ensures r.Success? ==> |r.value.rows| == |located.rows|
  {
    match StripNames(located)
    case Failure(e) => Failure(e)
    case Success(stripped) =>
      match Select(AddDefaults(stripped), FinalColumns)
      case Failure(e) => Failure(e)
      case Success(selected) => Success(Drop(selected, set k | k in LateDropList))
  }

  /** A label without surrounding whitespace survives the strip with its cells. */
  lemma StripKeeps(located: Table, c: string, i: int)
    requires StripNames(located).Success?
    requires c in located.columns && 0 <= i < |located.rows|
    requires c != [] && Text.IsAsciiLetter(c[0]) && Text.IsAsciiLetter(c[|c| - 1])
    ensures c in StripNames(located).value.columns
    ensures StripNames(located).value.rows[i][c] == located.rows[i][c]
  {
    Text.StripLetters(c);
  }

  /** The selection of the final columns and the later drop keep the cells
      of a selected label the drop does not name. */
  lemma SelectKeeps(defaulted: Table, c: string, i: int)
    requires Select(defaulted, FinalColumns).Success?
    requires c in defaulted.columns && c in FinalColumns
    requires 0 <= i < |defaulted.rows|
    ensures var out := Drop(Select(defaulted, FinalColumns).value, set k | k in LateDropList);
      c in out.columns && out.rows[i][c] == defaulted.rows[i][c]
  {
    var selected := Select(defaulted, FinalColumns).value;
    assert c in selected.columns;
    LateDropIsNoop(selected);
  }

  /** A label without surrounding whitespace survives the strip, the
      defaults, the selection and the later drop with its cells. */
  lemma TidyKeeps(located: Table, c: string, i: int)
    requires Tidy(located).Success?
    requires c in located.columns
    requires c in FinalColumns
    requires c != [] && Text.IsAsciiLetter(c[0]) && Text.IsAsciiLetter(c[|c| - 1])
    requires 0 <= i < |located.rows|
    ensures c in Tidy(located).value.columns
    ensures Tidy(located).value.rows[i][c] == located.rows[i][c]
  {
    StripKeeps(located, c, i);
    var stripped := StripNames(located).value;
    var defaulted := AddDefaults(stripped);
    SelectKeeps(defaulted, c, i);
  }

  /** The district cell survives the final stages. */
  lemma TidyDistrict(located: Table, i: int)
    requires Tidy(located).Success? && "District" in located.columns && 0 <= i < |located.rows|
    ensures var row := Tidy(located).value.rows[i];
      "District" in row && row["District"] == located.rows[i]["District"]
  {
    TidyKeeps(located, "District", i);
  }

  /** Every record leaves the final stages with the district of its own
      coordinates, as the joined table holds them. */
  lemma FinishDistrict(joined: Table, geocode: (Value, Value) -> District.Lookup, i: int)
    requires Finish(joined, geocode).Success? && 0 <= i < |joined.rows|
    ensures var row := Finish(joined, geocode).value.rows[i];
      && "District" in row
      && row["District"] == Some(Str(District.GetDistrict(
           Get(joined.rows[i], "Latitude"), Get(joined.rows[i], "Longitude"), geocode)))
  {
    var timed := AddTimeFields(joined);
    OutsideTimeLabels("Latitude");
    OutsideTimeLabels("Longitude");
    TimeFieldsKeep(joined, "Latitude", i);
    TimeFieldsKeep(joined, "Longitude", i);
    var located := AddDistrict(timed, geocode).value;
    assert located.rows[i]["District"] == Some(Str(District.GetDistrict(
      Get(joined.rows[i], "Latitude"), Get(joined.rows[i], "Longitude"), geocode)));
    TidyDistrict(located, i);
  }

  /** The four time fields survive the final stages with their cells. */
  lemma TidyTime(located: Table, i: int)
    requires Tidy(located).Success? && 0 <= i < |located.rows|
    requires "Date" in located.columns && "Time" in located.columns
    requires "Day" in located.columns && "Workday" in located.columns
    ensures var row := Tidy(located).value.rows[i];
      && Get(row, "Date") == located.rows[i]["Date"]
      && Get(row, "Time") == located.rows[i]["Time"]
      && Get(row, "Day") == located.rows[i]["Day"]
      && Get(row, "Workday") == located.rows[i]["Workday"]
  {
    TidyKeeps(located, "Date", i);
    TidyKeeps(located, "Time", i);
    TidyKeeps(located, "Day", i);
    TidyKeeps(located, "Workday", i);
  }

  /** When the joined table has a `Timestamp` column, every record leaves
      the final stages with the time fields derived from its timestamp. */
  lemma FinishTime(joined: Table, geocode: (Value, Value) -> District.Lookup, i: int)
    requires Finish(joined, geocode).Success? && 0 <= i < |joined.rows|
    requires "Timestamp" in joined.columns
    ensures var row := Finish(joined, geocode).value.rows[i];
      var e := Temporal.EpochOf(joined.rows[i]["Timestamp"]);
      && Get(row, "Date") == Temporal.DateCell(e)
      && Get(row, "Time") == Temporal.ClockCell(e)
      && Get(row, "Day") == Temporal.DayNameCell(e)
      && Get(row, "Workday") == Temporal.WorkdayCell(e)
  {
    var timed := AddTimeFields(joined);
    var ad := AddDistrict(timed, geocode);
    assert Finish(joined, geocode) == match ad case Failure(e) => Failure(e) case Success(l) => Tidy(l);
    var located := ad.value;
    TimeFieldsCells(joined, i);
    TidyTime(located, i);
  }

  /** A column of the combined table other than colour and operator keeps
      its cells through a join on unique keys. */
  lemma JoinedCell(bus: Table, colors: Table, c: string, k: int)
    requires colors.columns == {Join.LineKey, Join.ColorId, Join.Operator}
    requires Join.LeftJoin(bus, colors).Success? && Join.UniqueKeys(colors.rows)
    requires c in bus.columns && c != Join.ColorId && c != Join.Operator && 0 <= k < |bus.rows|
    ensures k < |Join.LeftJoin(bus, colors).value.rows|
    ensures Get(Join.LeftJoin(bus, colors).value.rows[k], c) == bus.rows[k][c]
  {
  }

  /** The record a row with derived and re-parsed time fields turns into:
      the calendar day of its instant, a NaT time (the coercing parse
      cannot read a time-of-day object), a `Day` that the integer coercion
      turns into 0, and a `Workday` of 1 exactly on Monday to Friday. A row
      without an instant gets a NaT date and a `Workday` of 0. */
  lemma SinkTime(row: Row, e: Option<int>)
    requires Get(row, "Date") == Temporal.DateCell(e)
    requires Coerce.ToClock(Temporal.ClockCell(e)) == Success(Get(row, "Time"))
    requires Get(row, "Day") == Temporal.DayNameCell(e) && Get(row, "Workday") == Temporal.WorkdayCell(e)
    ensures ToSink(row).date == (if e.Some? then Some(Temporal.DayNumber(e.value)) else None)
    ensures ToSink(row).time == None
    ensures ToSink(row).day == 0
    ensures ToSink(row).workday == (if e.Some? && Temporal.WeekdayIndex(e.value) < 5 then 1 else 0)
  {
    Coerce.ClockOfClockCell(e);
    Coerce.DayCoercesToZero(e);
    Coerce.WorkdayCoercion(e);
  }

  /** A column the time fields, the district and the final stages do not
      write keeps its cells through them. */
  lemma FinishKeeps(joined: Table, geocode: (Value, Value) -> District.Lookup, c: string, i: int)
    requires Finish(joined, geocode).Success? && 0 <= i < |joined.rows|
    requires c in joined.columns && c !in TimeLabels && c != "District" && c in FinalColumns
    requires c != [] && Text.IsAsciiLetter(c[0]) && Text.IsAsciiLetter(c[|c| - 1])
    ensures Get(Finish(joined, geocode).value.rows[i], c) == joined.rows[i][c]
  {
    var timed := AddTimeFields(joined);
    TimeFieldsKeep(joined, c, i);
    var located := AddDistrict(timed, geocode).value;
    TidyKeeps(located, c, i);
  }

  /** The table a successful reconciliation inserts, stage by stage. */
  lemma ReconcileStages(cm: Table, cl: Table, colorsRaw: Table, geocode: (Value, Value) -> District.Lookup)
    requires Reconcile(cm, cl, colorsRaw, geocode).Success?
    ensures PrepareColors(colorsRaw).Success?
    ensures Join.LeftJoin(Combine(cm, cl), PrepareColors(colorsRaw).value).Success?
    ensures var joined := Join.LeftJoin(Combine(cm, cl), PrepareColors(colorsRaw).value).value;
      && Finish(joined, geocode).Success?
      && ClockObjects(Finish(joined, geocode).value).Success?
      && Reconcile(cm, cl, colorsRaw, geocode).value == ToSinkAll(ClockObjects(Finish(joined, geocode).value).value)
  {
  }

  /** Every record's district is the one looked up from the coordinates
      its row has after the colour join. */
  lemma ReconcileDistrictOf(cm: Table, cl: Table, colorsRaw: Table,
                            geocode: (Value, Value) -> District.Lookup, k: int)
    requires Reconcile(cm, cl, colorsRaw, geocode).Success?
    requires 0 <= k < |Reconcile(cm, cl, colorsRaw, geocode).value|
    ensures PrepareColors(colorsRaw).Success? && Join.LeftJoin(Combine(cm, cl), PrepareColors(colorsRaw).value).Success?
    ensures var joined := Join.LeftJoin(Combine(cm, cl), PrepareColors(colorsRaw).value).value;
      && k < |joined.rows|
      && Reconcile(cm, cl, colorsRaw, geocode).value[k].district ==
         Str(District.GetDistrict(Get(joined.rows[k], "Latitude"), Get(joined.rows[k], "Longitude"), geocode))
  {
    ReconcileStages(cm, cl, colorsRaw, geocode);
    var joined := Join.LeftJoin(Combine(cm, cl), PrepareColors(colorsRaw).value).value;
    var finished := Finish(joined, geocode).value;
    var recast := ClockObjects(finished).value;
    FinishDistrict(joined, geocode, k);
    RecastKeeps(finished, "District", k);
  }

  /** Every record carries a non-empty district text, whatever the colour
      table holds. */
  lemma ReconcileDistricts(cm: Table, cl: Table, colorsRaw: Table,
                           geocode: (Value, Value) -> District.Lookup, k: int)
    requires Reconcile(cm, cl, colorsRaw, geocode).Success?
    requires 0 <= k < |Reconcile(cm, cl, colorsRaw, geocode).value|
    ensures var d := Reconcile(cm, cl, colorsRaw, geocode).value[k].district;
      d.Str? && d.s != ""
  {
    ReconcileDistrictOf(cm, cl, colorsRaw, geocode, k);
  }

  /** When CM has a `Timestamp` column, every record's `Time` is re-parsed
      from the clock text of its own instant: the first row holds clock
      text, not a time-of-day object, so the whole column is parsed. */
  lemma ReconcileClock(joined: Table, geocode: (Value, Value) -> District.Lookup, finished: Table, k: int)
    requires Finish(joined, geocode) == Success(finished) && ClockObjects(finished).Success?
    requires "Timestamp" in joined.columns && 0 <= k < |joined.rows|
    ensures var recast := ClockObjects(finished).value;
      var e := Temporal.EpochOf(joined.rows[k]["Timestamp"]);
      && k < |recast.rows|
      && Coerce.ToClock(Temporal.ClockCell(e)) == Success(Get(recast.rows[k], "Time"))
      && Get(recast.rows[k], "Date") == Temporal.DateCell(e)
      && Get(recast.rows[k], "Day") == Temporal.DayNameCell(e)
      && Get(recast.rows[k], "Workday") == Temporal.WorkdayCell(e)
  {
    ReconcileClockTime(joined, geocode, finished, k);
    FinishTime(joined, geocode, k);
    RecastKeeps(finished, "Date", k);
    RecastKeeps(finished, "Day", k);
    RecastKeeps(finished, "Workday", k);
  }

  /** The re-parsed `Time` of a row is the parse of its instant's clock text. */
  lemma ReconcileClockTime(joined: Table, geocode: (Value, Value) -> District.Lookup, finished: Table, k: int)
    requires Finish(joined, geocode) == Success(finished) && ClockObjects(finished).Success?
    requires "Timestamp" in joined.columns && 0 <= k < |joined.rows|
    ensures var e := Temporal.EpochOf(joined.rows[k]["Timestamp"]);
      k < |ClockObjects(finished).value.rows| && Coerce.ToClock(Temporal.ClockCell(e)) == Success(Get(ClockObjects(finished).value.rows[k], "Time"))
  {
    FinishClockText(joined, geocode, finished, 0);
    FinishClockText(joined, geocode, finished, k);
    RecastClockText(finished, Temporal.EpochOf(joined.rows[0]["Timestamp"]),
                    Temporal.EpochOf(joined.rows[k]["Timestamp"]), k);
  }

  /** Before the re-parse a row's `Time` is the clock text of its instant. */
  lemma FinishClockText(joined: Table, geocode: (Value, Value) -> District.Lookup, finished: Table, k: int)
    requires Finish(joined, geocode) == Success(finished)
    requires "Timestamp" in joined.columns && 0 <= k < |joined.rows|
    ensures k < |finished.rows|
    ensures Get(finished.rows[k], "Time") == Temporal.ClockCell(Temporal.EpochOf(joined.rows[k]["Timestamp"]))
  {
    FinishTime(joined, geocode, k);
  }

  /** In a table whose `Time` column holds clock text, the re-parse turns
      each row's text into the time-of-day object of its instant. */
  lemma RecastClockText(t: Table, e0: Option<int>, e: Option<int>, k: int)
    requires ClockObjects(t).Success? && 0 <= k < |t.rows|
    requires Get(t.rows[0], "Time") == Temporal.ClockCell(e0)
    requires Get(t.rows[k], "Time") == Temporal.ClockCell(e)
    ensures k < |ClockObjects(t).value.rows|
    ensures Coerce.ToClock(Temporal.ClockCell(e)) == Success(Get(ClockObjects(t).value.rows[k], "Time"))
  {
    RecastCells(t, k);
  }

  /** Once the first `Time` cell is not a time-of-day object, a row's
      re-parsed `Time` is the parse of its own cell and its other cells are
      unchanged. */
  lemma RecastCells(t: Table, k: int)
    requires ClockObjects(t).Success? && 0 <= k < |t.rows|
    requires !IsClock(Get(t.rows[0], "Time"))
    ensures k < |ClockObjects(t).value.rows|
    ensures Coerce.ToClock(Get(t.rows[k], "Time")) == Success(Get(ClockObjects(t).value.rows[k], "Time"))
  {
    assert t.rows[0]["Time"] == Get(t.rows[0], "Time");
    ClockObjectsParse(t);
  }

  /** After a colour join on unique keys, every record carries the district
      of its own coordinates and, when CM has a `Timestamp` column, the date,
      day and workday of its own timestamp (CM's for the first records, CL's,
      NaT when CL has no such column, for the rest) and a NaT time. A CL
      record stores the text "<NA>" as its `Travel_ID` when CL has no such
      column. */
  lemma ReconcileFields(cm: Table, cl: Table, colorsRaw: Table,
                        geocode: (Value, Value) -> District.Lookup, k: int)
    requires Reconcile(cm, cl, colorsRaw, geocode).Success?
    requires PrepareColors(colorsRaw).Success? && Join.UniqueKeys(PrepareColors(colorsRaw).value.rows)
    requires 0 <= k < |cm.rows| + |cl.rows|
    ensures var d := Reconcile(cm, cl, colorsRaw, geocode).value[k].district;
      d.Str? && d.s != ""
    ensures "Latitude" in cm.columns && "Longitude" in cm.columns ==>
      var bus := Combine(cm, cl).rows[k];
      Reconcile(cm, cl, colorsRaw, geocode).value[k].district ==
        Str(District.GetDistrict(bus["Latitude"], bus["Longitude"], geocode))
    ensures "Timestamp" in cm.columns ==>
      var ts := if k < |cm.rows| then cm.rows[k]["Timestamp"]
                else if "Timestamp" in cl.columns then cl.rows[k - |cm.rows|]["Timestamp"]
                else None;
      var e := Temporal.EpochOf(ts);
      var out := Reconcile(cm, cl, colorsRaw, geocode).value[k];
      && out.date == (if e.Some? then Some(Temporal.DayNumber(e.value)) else None)
      && out.time == None
      && out.day == 0
      && out.workday == (if e.Some? && Temporal.WeekdayIndex(e.value) < 5 then 1 else 0)
    ensures "Travel_ID" in cm.columns && "Travel_ID" !in cl.columns && k >= |cm.rows| ==>
      Reconcile(cm, cl, colorsRaw, geocode).value[k].travelId == Str("<NA>")
  {
    ReconcileDistricts(cm, cl, colorsRaw, geocode, k);
    if "Latitude" in cm.columns && "Longitude" in cm.columns {
      ReconcileCoordinates(cm, cl, colorsRaw, geocode, k);
    }
    if "Timestamp" in cm.columns {
      ReconcileTimes(cm, cl, colorsRaw, geocode, k);
    }
    if "Travel_ID" in cm.columns && "Travel_ID" !in cl.columns && k >= |cm.rows| {
      ReconcileTravel(cm, cl, colorsRaw, geocode, k);
    }
  }

  /** After a colour join on unique keys, the district is looked up from the
      coordinates of the combined row. */
  lemma ReconcileCoordinates(cm: Table, cl: Table, colorsRaw: Table,
                             geocode: (Value, Value) -> District.Lookup, k: int)
    requires Reconcile(cm, cl, colorsRaw, geocode).Success?
    requires PrepareColors(colorsRaw).Success? && Join.UniqueKeys(PrepareColors(colorsRaw).value.rows)
    requires 0 <= k < |cm.rows| + |cl.rows|
    requires "Latitude" in cm.columns && "Longitude" in cm.columns
    ensures k < |Reconcile(cm, cl, colorsRaw, geocode).value|
    ensures var bus := Combine(cm, cl).rows[k];
      Reconcile(cm, cl, colorsRaw, geocode).value[k].district ==
        Str(District.GetDistrict(bus["Latitude"], bus["Longitude"], geocode))
  {
    var bus := Combine(cm, cl);
    var colors := PrepareColors(colorsRaw).value;
    JoinedCell(bus, colors, "Latitude", k);
    JoinedCell(bus, colors, "Longitude", k);
    ReconcileDistrictOf(cm, cl, colorsRaw, geocode, k);
  }

  /** After a colour join on unique keys, when CM has a `Timestamp` column,
      each record's date, day and workday come from its own timestamp and
      its time is NaT. */
  lemma ReconcileTimes(cm: Table, cl: Table, colorsRaw: Table,
                       geocode: (Value, Value) -> District.Lookup, k: int)
    requires Reconcile(cm, cl, colorsRaw, geocode).Success?
    requires PrepareColors(colorsRaw).Success? && Join.UniqueKeys(PrepareColors(colorsRaw).value.rows)
    requires 0 <= k < |cm.rows| + |cl.rows|
    requires "Timestamp" in cm.columns
    ensures k < |Reconcile(cm, cl, colorsRaw, geocode).value|
    ensures var ts := if k < |cm.rows| then cm.rows[k]["Timestamp"]
                      else if "Timestamp" in cl.columns then cl.rows[k - |cm.rows|]["Timestamp"]
                      else None;
      var e := Temporal.EpochOf(ts);
      var out := Reconcile(cm, cl, colorsRaw, geocode).value[k];
      && out.date == (if e.Some? then Some(Temporal.DayNumber(e.value)) else None)
      && out.time == None
      && out.day == 0
      && out.workday == (if e.Some? && Temporal.WeekdayIndex(e.value) < 5 then 1 else 0)
  {
    var bus := Combine(cm, cl);
    var colors := PrepareColors(colorsRaw).value;
    var joined := Join.LeftJoin(bus, colors).value;
    ReconcileStages(cm, cl, colorsRaw, geocode);
    var recast := ClockObjects(Finish(joined, geocode).value).value;
    JoinedCell(bus, colors, "Timestamp", k);
    ReconcileClock(joined, geocode, Finish(joined, geocode).value, k);
    SinkTime(recast.rows[k], Temporal.EpochOf(joined.rows[k]["Timestamp"]));
  }

  /** After a colour join on unique keys, a CL record stores "<NA>" as its
      `Travel_ID` when only CM has that column. */
  lemma ReconcileTravel(cm: Table, cl: Table, colorsRaw: Table,
                        geocode: (Value, Value) -> District.Lookup, k: int)
    requires Reconcile(cm, cl, colorsRaw, geocode).Success?
    requires PrepareColors(colorsRaw).Success? && Join.UniqueKeys(PrepareColors(colorsRaw).value.rows)
    requires |cm.rows| <= k < |cm.rows| + |cl.rows|
    requires "Travel_ID" in cm.columns && "Travel_ID" !in cl.columns
    ensures k < |Reconcile(cm, cl, colorsRaw, geocode).value|
    ensures Reconcile(cm, cl, colorsRaw, geocode).value[k].travelId == Str("<NA>")
  {
    var bus := Combine(cm, cl);
    var colors := PrepareColors(colorsRaw).value;
    var joined := Join.LeftJoin(bus, colors).value;
    ReconcileStages(cm, cl, colorsRaw, geocode);
    var finished := Finish(joined, geocode).value;
    JoinedCell(bus, colors, "Travel_ID", k);
    TravelLabel();
    FinishKeeps(joined, geocode, "Travel_ID", k);
    RecastKeeps(finished, "Travel_ID", k);
  }

  /** `Travel_ID` is a final column that no later stage writes. */
  lemma TravelLabel()
    ensures "Travel_ID" !in TimeLabels && "Travel_ID" in FinalColumns
    ensures Text.IsAsciiLetter("Travel_ID"[0]) && Text.IsAsciiLetter("Travel_ID"[|"Travel_ID"| - 1])
  {
    assert FinalColumns[9] == "Travel_ID";
  }

  /** The re-parse leaves every column other than `Time` alone. */
  lemma RecastKeeps(t: Table, c: string, k: int)
    requires ClockObjects(t).Success? && 0 <= k < |t.rows| && c != "Time"
    ensures k < |ClockObjects(t).value.rows|
    ensures Get(ClockObjects(t).value.rows[k], c) == Get(t.rows[k], c)
  {
    assert ClockObjects(t).value.rows[k].Keys == t.rows[k].Keys;
  }

  /** With the script's geocoder, which is never assigned, every record's
      district is "Unknown" or, for a NaN coordinate, "Invalid coordinates". */
  lemma ReconcileScriptDistrict(cm: Table, cl: Table, colorsRaw: Table, k: int)
    requires Reconcile(cm, cl, colorsRaw, District.UnassignedGeolocator).Success?
    requires 0 <= k < |Reconcile(cm, cl, colorsRaw, District.UnassignedGeolocator).value|
    ensures var d := Reconcile(cm, cl, colorsRaw, District.UnassignedGeolocator).value[k].district;
      d == Str(District.Unknown) || d == Str(District.InvalidCoordinates)
  {
    ReconcileDistrictOf(cm, cl, colorsRaw, District.UnassignedGeolocator, k);
    var joined := Join.LeftJoin(Combine(cm, cl), PrepareColors(colorsRaw).value).value;
    District.ScriptDistrict(Get(joined.rows[k], "Latitude"), Get(joined.rows[k], "Longitude"));
  }

  /** The whole run: CL feed entities, CM JSON records, the raw colour table
      and the geocoder in; the records inserted into `Bus_Status`, in order,
      or the exception that stops the script. */
  function Run(feed: seq<Gtfs.Entity>, cmRecords: seq<Row>, colorsRaw: Table,
               geocode: (Value, Value) -> District.Lookup): (r: Result<seq<SinkRecord>, Error>)
    ensures Gtfs.VehicleRecords(feed) == [] ==> r == Failure(NoVehicleData)
    ensures PrepareCarris(feed).Success? && cmRecords == [] ==> r == Failure(MissingColumn("Current_Status"))
    ensures r.Success? ==> |r.value| >= |cmRecords| + |Gtfs.VehicleRecords(feed)|
    ensures PrepareColors(colorsRaw).Success? && Join.UniqueKeys(PrepareColors(colorsRaw).value.rows) && r.Success? ==>
      |r.value| == |cmRecords| + |Gtfs.VehicleRecords(feed)|
  {
    var cl :- PrepareCarris(feed);
    var cm :- PrepareMetropolitana(cmRecords);
    Reconcile(cm, cl, colorsRaw, geocode)
  }

  /** The script as it runs stores no district other than "Unknown" and
      "Invalid coordinates". */
  lemma RunScriptDistrict(feed: seq<Gtfs.Entity>, cmRecords: seq<Row>, colorsRaw: Table, k: int)
    requires Run(feed, cmRecords, colorsRaw, District.UnassignedGeolocator).Success?
    requires 0 <= k < |Run(feed, cmRecords, colorsRaw, District.UnassignedGeolocator).value|
    ensures var d := Run(feed, cmRecords, colorsRaw, District.UnassignedGeolocator).value[k].district;
      d == Str(District.Unknown) || d == Str(District.InvalidCoordinates)
  {
    var cl := PrepareCarris(feed).value;
    var cm := PrepareMetropolitana(cmRecords).value;
    ReconcileScriptDistrict(cm, cl, colorsRaw, k);
  }

  /** After a colour join on unique keys, the first records of a run are the
      CM vehicles, and each carries the date, day and workday of its own
      `timestamp` and a NaT time. */
  lemma RunMetropolitanaTimes(feed: seq<Gtfs.Entity>, cmRecords: seq<Row>, colorsRaw: Table,
                              geocode: (Value, Value) -> District.Lookup, k: int)
    requires Run(feed, cmRecords, colorsRaw, geocode).Success?
    requires PrepareColors(colorsRaw).Success? && Join.UniqueKeys(PrepareColors(colorsRaw).value.rows)
    requires exists j :: 0 <= j < |cmRecords| && "timestamp" in cmRecords[j]
    requires 0 <= k < |cmRecords|
    ensures k < |Run(feed, cmRecords, colorsRaw, geocode).value|
    ensures var e := Temporal.EpochOf(Get(cmRecords[k], "timestamp"));
      var out := Run(feed, cmRecords, colorsRaw, geocode).value[k];
      && out.date == (if e.Some? then Some(Temporal.DayNumber(e.value)) else None)
      && out.time == None
      && out.day == 0
      && out.workday == (if e.Some? && Temporal.WeekdayIndex(e.value) < 5 then 1 else 0)
  {
    var cl := PrepareCarris(feed).value;
    var cm := PrepareMetropolitana(cmRecords).value;
    MetropolitanaTargets();
    MetropolitanaField(cmRecords, "timestamp", "Timestamp", k);
    ReconcileFields(cm, cl, colorsRaw, geocode, k);
  }

  /** After a colour join on unique keys, the records after the CM vehicles
      are the CL vehicles, and since the CL table has no `Timestamp` column
      they get NaT date and time, a `Day` of 0 and a `Workday`
      of 0: the CL `Date` and `Time` computed earlier do not survive the
      alignment onto CM's columns. */
  lemma RunCarrisTimes(feed: seq<Gtfs.Entity>, cmRecords: seq<Row>, colorsRaw: Table,
                       geocode: (Value, Value) -> District.Lookup, k: int)
    requires Run(feed, cmRecords, colorsRaw, geocode).Success?
    requires PrepareColors(colorsRaw).Success? && Join.UniqueKeys(PrepareColors(colorsRaw).value.rows)
    requires exists j :: 0 <= j < |cmRecords| && "timestamp" in cmRecords[j]
    requires forall i :: 0 <= i < |Gtfs.VehicleRecords(feed)| ==> "Timestamp" !in Gtfs.VehicleRecords(feed)[i]
    requires |cmRecords| <= k < |cmRecords| + |Gtfs.VehicleRecords(feed)|
    ensures k < |Run(feed, cmRecords, colorsRaw, geocode).value|
    ensures var out := Run(feed, cmRecords, colorsRaw, geocode).value[k];
      out.date == None && out.time == None && out.day == 0 && out.workday == 0
  {
    var cl := PrepareCarris(feed).value;
    var cm := PrepareMetropolitana(cmRecords).value;
    var j :| 0 <= j < |cmRecords| && "timestamp" in cmRecords[j];
    MetropolitanaTargets();
    MetropolitanaField(cmRecords, "timestamp", "Timestamp", j);
    CarrisNoTimestamp(feed);
    ReconcileFields(cm, cl, colorsRaw, geocode, k);
  }

  /** After a colour join on unique keys, when the CM response carries
      `block_id`, every CL record stores the text "<NA>" as its `Travel_ID`:
      CL has no such column, so the alignment leaves the cell missing and
      the `'string'` dtype renders it that way. */
  lemma RunCarrisTravel(feed: seq<Gtfs.Entity>, cmRecords: seq<Row>, colorsRaw: Table,
                        geocode: (Value, Value) -> District.Lookup, k: int)
    requires Run(feed, cmRecords, colorsRaw, geocode).Success?
    requires PrepareColors(colorsRaw).Success? && Join.UniqueKeys(PrepareColors(colorsRaw).value.rows)
    requires exists j :: 0 <= j < |cmRecords| && "block_id" in cmRecords[j]
    requires forall i :: 0 <= i < |Gtfs.VehicleRecords(feed)| ==> "Travel_ID" !in Gtfs.VehicleRecords(feed)[i]
    requires |cmRecords| <= k < |cmRecords| + |Gtfs.VehicleRecords(feed)|
    ensures k < |Run(feed, cmRecords, colorsRaw, geocode).value|
    ensures Run(feed, cmRecords, colorsRaw, geocode).value[k].travelId == Str("<NA>")
  {
    var cl := PrepareCarris(feed).value;
    var cm := PrepareMetropolitana(cmRecords).value;
    var j :| 0 <= j < |cmRecords| && "block_id" in cmRecords[j];
    assert MetropolitanaRenames["block_id"] == "Travel_ID";
    MetropolitanaField(cmRecords, "block_id", "Travel_ID", j);
    CarrisNoTravel(feed);
    ReconcileFields(cm, cl, colorsRaw, geocode, k);
  }
}
