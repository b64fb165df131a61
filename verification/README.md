# Lisbon real-time bus pipeline — a Dafny model

`ReatimeBus-1.py` builds one table of bus positions from two feeds and
inserts it into the `Bus_Status` table of a SQL Server database. The feeds are:

- the Carris (CL) GTFS-realtime vehicle-position feed;
- the Carris Metropolitana (CM) JSON vehicle list.

This project models the script's table pipeline as pure functions over rows.
A row maps column labels to optional cells; a missing cell is pandas' NaN/NaT.
The model proves what each stage does to labels, cells, row counts and row
order. The stages are:

- **Flattening** (`Gtfs`): a decoded vehicle message is a tree of fields.
  `parse_message` stores every scalar under its `_`-joined path, and the
  entity loop adds `entity_id`.
- **Normalisation** (`Pipeline`, `Status`, `LineId`):
  - status codes 0/1/2 become upstream text, which then becomes display labels;
  - the fixed drop and rename tables are applied, the drop list being stripped first;
  - `Line_ID` is cut to `str[-3:]`.
- **Reconciliation** (`Pipeline.Combine`, `Join`): CL is reindexed onto CM's
  columns and appended after CM. A left merge on `Line_ID` then attaches the
  colour table's `Color_ID`/`Operator`, including pandas' `_x`/`_y` suffixes.
- **Time fields** (`Temporal`): the date, `HH:MM:SS`, weekday name and
  workday flag come from epoch seconds. This uses floor division; 1970-01-01
  is a Thursday, with Monday = 0.
- **District** (`District`): `get_district` with the reverse geocoder as a
  function parameter. The script never assigns `geolocator`, so as written
  every lookup raises and falls back to "Unknown".
- **Sink preparation** (`Coerce`, `Pipeline.ClockObjects`, `Pipeline.ToSink`):
  - the `'string'` dtype for `Line_ID`, `Stop_ID` and `Travel_ID`, and `'bool'` for `Workday`;
  - the re-parse of `Time` into time-of-day objects;
  - `to_numeric(..., errors='coerce').fillna(0)` and `astype(str)` for each inserted field.

`Pipeline.Run` chains everything. It takes:

- the decoded CL entities;
- the CM records;
- the raw colour table;
- the geocoder.

It returns the `Bus_Status` records in insert order, or the exception that
stops the script (`Tables.Error`).

The modelled code has these consequences for what is stored:

- **CL rows carry no date.** CL's `timestamp` column is dropped at line 131,
  and its `Date`/`Time` columns are lost when CL is reindexed onto CM's
  columns (line 241). So every CL record reaches the insert with a NaT date
  and a `Workday` of 0 (`Pipeline.RunCarrisTimes`).
- **`Time` is always NaT.** Line 422 turns the `HH:MM:SS` texts into
  `datetime.time` objects. The coercing parse at line 440 cannot read such
  an object, so every record's `Time` is NaT (`Coerce.TimeOfClock`,
  `Pipeline.ReconcileTimes`).
- **`Day` is always 0** (line 441). A weekday name is not numeric.
- **CL rows store `Travel_ID` as "<NA>".** CL has no `Travel_ID`, so the
  alignment leaves the cell missing. The `'string'` cast at line 418 makes it
  `pd.NA`, which `astype(str)` at line 438 renders as "<NA>"
  (`Pipeline.RunCarrisTravel`).

Further behaviour of the code that the model follows:

- **Unmatched lines get NaN.** A line with no colour-table match gets NaN
  colour and operator from the left merge (lines 268-272). "Unknown" is
  written only when a column is missing altogether (lines 350-353).
- **Unmapped statuses are NaN or kept.** An unmapped CL status code becomes
  NaN through `.map(status_map)` (line 105). A CM status other than the three
  upstream strings passes through the `replace` unchanged (lines 230-234).
- **The combined columns are CM's.** CL is reindexed onto CM's columns
  (line 241), so CL values in columns CM lacks are discarded. CM rows come
  first (line 244).
- **A feed failure stops the script.** An empty or failed CL feed leaves
  `Carris_CL = None`, and line 122 then fails; this is modelled as
  `NoVehicleData`. An empty CM response leaves an empty frame, and its missing
  `Current_Status` is a KeyError at line 230. Neither failure lets the
  pipeline continue with the other feed.
- **No rate limit.** The comment at line 310 says the lookups are rate
  limited. `RateLimiter` is imported at line 49 but never used, and
  `get_district` calls the geocoder directly.

## Model

| member | source | states |
|---|---|---|
| Gtfs.Flatten | ReatimeBus-1.py:77-85 | every key `parse_message` stores begins with the prefix it was called with |
| Gtfs.FlattenIsCollect | ReatimeBus-1.py:77-85 | flattening a message equals storing its scalar leaves, in depth-first field order, under their `_`-joined paths |
| Gtfs.CollectLastWins | ReatimeBus-1.py:79-84 | a key is present exactly when some leaf is stored under it, and it holds the value of the last such leaf (`result.update` and later assignments overwrite) |
| Gtfs.CollectKeys | ReatimeBus-1.py:79-84 | a key is in the collected record if and only if some leaf's path spells it |
| Gtfs.CollectLast | ReatimeBus-1.py:79-84 | the last leaf stored under a key gives that key's value |
| Gtfs.FlattenKeys | ReatimeBus-1.py:77-85 | the keys of `parse_message(vehicle)` are exactly the `_`-joined leaf paths, each holding the value of its last leaf |
| Gtfs.VehicleRecord | ReatimeBus-1.py:89-90 | a vehicle's record has the flattened keys plus `entity_id`, which equals the entity id and overrides a flattened key of that name; every other key keeps its flattened value |
| Gtfs.VehicleRecords | ReatimeBus-1.py:87-91 | the entity loop emits at most one record per entity |
| Gtfs.VehicleIndicesExact | ReatimeBus-1.py:87-88 | the positions of vehicle-bearing entities are strictly increasing, each points at an entity with a vehicle, and none is missed |
| Gtfs.VehicleRecordsInOrder | ReatimeBus-1.py:87-91 | one record per entity with a vehicle, in feed order: the j-th record is built from the j-th such entity |
| Gtfs.VehicleRecordsAppend | ReatimeBus-1.py:87-91 | the records of a split feed are the records of the first part followed by those of the second |
| Tables.FromRecords | ReatimeBus-1.py:94 | `pd.DataFrame(records)`: one row per record in order, the columns are the union of the record keys, and a record lacking a column has NaN there |
| Tables.KeysOf | ReatimeBus-1.py:94 | a label is a column exactly when some record has it |
| Pipeline.LiftedCells | ReatimeBus-1.py:94 | every field of every flattened record is a present cell of the CL frame at that record's row |
| Pipeline.LiftedColumns | ReatimeBus-1.py:94 | every CL frame column is the field name of some record |
| Status.StatusText | ReatimeBus-1.py:97-105 | `.map(status_map)` sends values equal to 0, 1, 2 (ints and floats compared numerically, and bools as 1 and 0, as in a column of mixed values) to INCOMING_AT, STOPPED_AT, IN_TRANSIT_TO, and gives NaN exactly for everything else |
| Status.EqualsCodeExamples | ReatimeBus-1.py:97-105 | the key comparison of `.map(status_map)` in a column of mixed values: True equals 1, False equals 0, 2.0 equals 2, 0.5 equals no code, the text "0" does not equal 0, and 1 equals 1 but not 2 |
| Pipeline.CarrisFrame | ReatimeBus-1.py:94-105 | the CL frame has one row per vehicle record, and its columns are the record fields plus `current_status_text` at most |
| Pipeline.CarrisFrameCells | ReatimeBus-1.py:94-105 | each record field other than the derived status text is a present cell of its own CL row |
| Pipeline.CarrisFrameStatus | ReatimeBus-1.py:104-105 | when some record has `current_status`, every CL row gets the upstream text of its own code |
| Pipeline.CarrisClock | ReatimeBus-1.py:122-125 | adds `datetime`, `Date` and `Time` and leaves every other column's cells unchanged; each row's `datetime` is the instant of its own `timestamp`, `Date` that instant's date and `Time` its time-of-day object |
| Pipeline.StrippedSet | ReatimeBus-1.py:133 | the stripped drop list holds exactly the stripped form of each listed label |
| Pipeline.CarrisDropStripped | ReatimeBus-1.py:129-133 | stripping repairs " vehicle_license_plate" and leaves every other listed label as it is |
| Pipeline.CarrisDropSet | ReatimeBus-1.py:129-135 | the labels CL drops are exactly the nine listed labels without the stray space |
| Pipeline.DropLabelsAvoid | ReatimeBus-1.py:129-135 | the drop names neither `entity_id` nor `current_status_text` |
| Tables.Drop | ReatimeBus-1.py:135 | `drop(columns=..., errors='ignore')` removes exactly the named labels present and keeps every other cell |
| Tables.DropAbsent | ReatimeBus-1.py:135 | naming absent labels in a drop changes nothing; a drop naming no present label is the identity |
| Tables.Rename | ReatimeBus-1.py:138-147 | each column moves to its rename-table label (or keeps its own) with its cells; failure exactly when two columns would share a label |
| Tables.RenameMoves | ReatimeBus-1.py:138-147 | a renamed column's cells appear under its new label, row for row |
| Tables.RenameAvoids | ReatimeBus-1.py:138-147 | a label that is neither a column nor a rename target is not a column afterwards |
| Tables.RenameKeepsOthers | ReatimeBus-1.py:203-219 | a column the rename table does not mention keeps its label and its cells |
| Tables.RenameAbsent | ReatimeBus-1.py:138-147 | rename-table entries for absent labels have no effect; a table naming no present label leaves the frame unchanged |
| Pipeline.CarrisTargets | ReatimeBus-1.py:139-142 | `entity_id` is renamed to `Line_ID` and `current_status_text` to `Current_Status` |
| Pipeline.CarrisRenameField | ReatimeBus-1.py:122-147 | a CL field that the drop keeps and the rename table maps, such as `entity_id` and `current_status_text`, reaches the renamed table under its new label with its cells |
| Pipeline.CarrisRenamesAvoidTimestamp | ReatimeBus-1.py:138-147 | no CL rename produces a `Timestamp` label |
| Status.Relabel | ReatimeBus-1.py:150-154 | the three upstream strings get the labels In Transit, Approaching and Stationed; every other cell, NaN included, passes through unchanged |
| Status.RelabelIdempotent | ReatimeBus-1.py:230-234 | replacing twice is replacing once |
| Status.CarrisStatusLabel | ReatimeBus-1.py:150-154 | map-then-replace sends codes 0, 1, 2 to Approaching, Stationed, In Transit and any other value to NaN, so CL statuses are one of those three labels or NaN |
| Tables.MapColumn | ReatimeBus-1.py:150-157 | a column transform rewrites that column's cell in every row and nothing else |
| Tables.MapColumnKeeps | ReatimeBus-1.py:230-234 | transforming one column leaves every other column's cells unchanged |
| LineId.LastThree | ReatimeBus-1.py:157 | `s[-3:]` is the suffix of length min(3, len(s)) |
| LineId.LastThreeIdempotent | ReatimeBus-1.py:157 | cutting an already cut id changes nothing |
| LineId.LastThreeExample | ReatimeBus-1.py:157 | "9999123" becomes "123" and a two-character id is kept whole |
| LineId.TruncateCell | ReatimeBus-1.py:157 | `.str[-3:]` cuts text cells and turns non-text cells into NaN |
| Pipeline.RelabelCarris | ReatimeBus-1.py:150-157 | the relabelling of statuses and line ids keeps the column set and the row count |
| Pipeline.RelabelCarrisLine | ReatimeBus-1.py:157 | each row's `Line_ID` is the cut of its renamed id |
| Pipeline.RelabelCarrisStatus | ReatimeBus-1.py:150-157 | each row's `Current_Status` is the relabel of its renamed status text |
| Pipeline.PrepareCarris | ReatimeBus-1.py:93-157 | no vehicle records is the `None['timestamp']` failure; on success the table has one row per vehicle record |
| Pipeline.CarrisNeedsTimestamp | ReatimeBus-1.py:122 | vehicle records that all lack `timestamp` give the KeyError on `timestamp` |
| Pipeline.CarrisNeedsStatus | ReatimeBus-1.py:103-150 | the CL table is built only if some record has `current_status`, `current_status_text` or `Current_Status`; otherwise only a warning is printed and the `Current_Status` replace raises |
| Pipeline.CarrisStages | ReatimeBus-1.py:122-157 | a built CL table passed the rename and the relabelling |
| Pipeline.StatusLabelSource | ReatimeBus-1.py:138-150 | `Current_Status` after the CL rename comes from `current_status_text` or from a field already so named |
| Pipeline.CarrisStatusSource | ReatimeBus-1.py:138-147 | only `current_status_text` is renamed to `Current_Status` |
| Pipeline.CarrisFrameColumns | ReatimeBus-1.py:94-105 | the CL frame's columns are the record fields, plus `current_status_text` exactly when some record has `current_status` |
| Pipeline.CarrisFrameStatusSource | ReatimeBus-1.py:94-105 | a status text or `Current_Status` column in the CL frame implies some record reports a status |
| Pipeline.LiftedColumn | ReatimeBus-1.py:94 | a column of the CL frame is a field of some record |
| Pipeline.CarrisFrameIds | ReatimeBus-1.py:87-94 | the j-th CL frame row's `entity_id` is the id of the j-th vehicle-bearing entity |
| Pipeline.CarrisLineIds | ReatimeBus-1.py:87-157 | the j-th prepared CL row's `Line_ID` is the last three characters of the j-th vehicle-bearing entity's id |
| Pipeline.CarrisStatuses | ReatimeBus-1.py:97-154 | each prepared CL row's `Current_Status` is the display label of its own record's status code |
| Pipeline.CarrisLacks | ReatimeBus-1.py:94-147 | a label no record carries, that the CL stages do not create and that no CL rename produces, is not a CL column |
| Pipeline.CarrisNoTimestamp | ReatimeBus-1.py:129-147 | unless a flattened field is itself named `Timestamp`, the prepared CL table has no `Timestamp` column |
| Pipeline.CarrisRenamesAvoidTravel | ReatimeBus-1.py:138-147 | no CL rename produces a `Travel_ID` label |
| Pipeline.CarrisNoTravel | ReatimeBus-1.py:94-147 | unless a flattened field is itself named `Travel_ID`, the prepared CL table has no `Travel_ID` column |
| Pipeline.PrepareMetropolitana | ReatimeBus-1.py:200-234 | an empty CM response is the KeyError on `Current_Status`; on success one row per CM record |
| Pipeline.MetropolitanaNeedsStatus | ReatimeBus-1.py:200-234 | the CM table fails only with the `Current_Status` KeyError or a rename clash, and is built only if some record has `current_status` or `Current_Status` |
| Pipeline.MetropolitanaStatusSource | ReatimeBus-1.py:203-219 | only `current_status` is renamed to `Current_Status` |
| Pipeline.MetropolitanaRenamed | ReatimeBus-1.py:203-219 | a CM field the rename table names reaches the table under its new label, row for row |
| Pipeline.MetropolitanaTargets | ReatimeBus-1.py:206-214 | `current_status`, `line_id` and `timestamp` become `Current_Status`, `Line_ID` and `Timestamp` |
| Pipeline.MetropolitanaStatus | ReatimeBus-1.py:210-234 | each CM row's `Current_Status` is the relabel of its own record's `current_status` |
| Pipeline.MetropolitanaField | ReatimeBus-1.py:203-234 | a renamed CM field other than the status reaches the CM table unchanged |
| Tables.Reindex | ReatimeBus-1.py:241 | `reindex(columns=cols)` has exactly those columns, keeps present cells and fills NaN elsewhere |
| Tables.Concat | ReatimeBus-1.py:244 | `concat(ignore_index=True)` has both column sets and the first table's rows followed by the second's, NaN where a side lacks a column |
| Pipeline.Combine | ReatimeBus-1.py:241-244 | the combined table has CM's columns and \|CM\|+\|CL\| rows; CM rows come first and unchanged, then CL rows in order with CL cells kept for CM's columns and NaN for the columns CL lacks |
| Tables.RenameAll | ReatimeBus-1.py:263 | relabelling every column by a function moves each column's cells to its new label; failure exactly when two columns collide, as a duplicate-column error |
| Tables.StripNames | ReatimeBus-1.py:263 | `columns.str.strip()` moves each column to its stripped label; failure exactly when two labels strip alike, as a duplicate-column error |
| Text.Strip | ReatimeBus-1.py:263 | `str.strip()` never lengthens a label |
| Text.LeadingSpace | ReatimeBus-1.py:263 | counts the whitespace run that opens the text: all of it is whitespace and the character after it is not |
| Text.TrailingSpace | ReatimeBus-1.py:263 | counts the whitespace run that closes the text: all of it is whitespace and the character before it is not |
| Text.TrimLeft | ReatimeBus-1.py:263 | drops a whitespace prefix, leaving a suffix that is empty or starts with non-whitespace |
| Text.TrimRight | ReatimeBus-1.py:263 | drops a whitespace suffix, leaving a prefix that is empty or ends with non-whitespace |
| Text.StripInfix | ReatimeBus-1.py:347 | `str.strip()` is an infix of its input, and everything cut from either side is whitespace |
| Text.StripEnds | ReatimeBus-1.py:347 | a stripped label neither starts nor ends with whitespace |
| Text.StripIdempotent | ReatimeBus-1.py:347 | stripping twice is stripping once |
| Text.StripTrimmed | ReatimeBus-1.py:347 | a label without whitespace at either end is left alone |
| Text.StripLetters | ReatimeBus-1.py:347 | a label that starts and ends with a letter is its own stripped form |
| Text.StripLeadingSpace | ReatimeBus-1.py:133 | a leading whitespace character is cut whatever follows |
| Tables.Select | ReatimeBus-1.py:356 | `df[cols]` fails with a KeyError naming a missing label exactly when one is missing, else keeps exactly those columns and their cells |
| Tables.FirstMissing | ReatimeBus-1.py:356 | finds a requested label the table lacks, or reports that all are present |
| Pipeline.PrepareColors | ReatimeBus-1.py:261-269 | the prepared colour table has exactly `Line_ID`, `Color_ID` and `Operator`, one row per CSV row in order, and each cell is the CSV cell of the column whose stripped and renamed label it sits under |
| Pipeline.ColorCells | ReatimeBus-1.py:263-269 | after the strip, the rename and the selection, every kept cell is the CSV cell of the column ending with that label, row for row |
| Pipeline.ColorRelabelOk | ReatimeBus-1.py:263-266 | when no two CSV columns end with one label, both the strip and the rename succeed |
| Pipeline.ColorRelabelDistinct | ReatimeBus-1.py:263-266 | when the strip and the rename both succeed, no two CSV columns end with one label |
| Pipeline.ColorRelabelIff | ReatimeBus-1.py:263-266 | the strip and the rename both succeed exactly when no two CSV columns end with one label |
| Pipeline.ColorColumns | ReatimeBus-1.py:263-266 | after the strip and the rename the labels are exactly the stripped and renamed CSV labels |
| Pipeline.PrepareColorsOutcome | ReatimeBus-1.py:263-269 | the colour table is prepared exactly when the final labels are distinct and include `Line_ID`, `Color_ID` and `Operator`; colliding labels raise a duplicate-column error, and otherwise the KeyError names one of the three that is missing |
| Pipeline.ColorKeysUnique | ReatimeBus-1.py:263-272 | a CSV column that ends as `Line_ID` with pairwise different cells gives a prepared table whose join keys are unique |
| Join.Matches | ReatimeBus-1.py:268-272 | the reference rows matching a key are exactly those whose `Line_ID` equals it |
| Join.MatchesMultiplicity | ReatimeBus-1.py:268-272 | each reference row carrying the key is matched as many times as it occurs, and no other row is matched |
| Join.MatchesAppend | ReatimeBus-1.py:268-272 | matches keep the reference table's order: matching a split table gives the first part's matches, then the second's |
| Join.Attach | ReatimeBus-1.py:268-272 | an output row has the left labels plus colour and operator, keeps every other left cell, and takes colour and operator from its match or NaN without one |
| Join.JoinRow | ReatimeBus-1.py:268-272 | a left row yields one output row per match, in reference order, row j carrying the colour and operator of the j-th match; or a single row with NaN colour and operator when nothing matches; its other cells are kept |
| Join.JoinRows | ReatimeBus-1.py:268-272 | the join never yields fewer rows than the left side has |
| Join.JoinRowsAppend | ReatimeBus-1.py:268-272 | joining a split left side gives the two parts' outputs in order |
| Join.JoinRowsKeys | ReatimeBus-1.py:268-272 | every output row has the left columns plus the two attached ones |
| Join.MatchesNone | ReatimeBus-1.py:268-272 | a key no reference row carries matches nothing |
| Join.MatchesUnique | ReatimeBus-1.py:268-272 | with unique reference keys a key matches at most one row, the one that carries it |
| Join.Lookup | ReatimeBus-1.py:268-272 | finds a reference row carrying the key, or reports that none does |
| Join.JoinRowsUnique | ReatimeBus-1.py:268-272 | with unique reference keys the row count and order are kept: output row i is left row i with its match's colour and operator, NaN without a match |
| Join.AttachAll | ReatimeBus-1.py:268-272 | the joined table has the left columns plus colour and operator, never fewer rows, and with unique keys exactly the left rows with their cells |
| Join.SuffixMap | ReatimeBus-1.py:268-272 | only an existing colour or operator column is given the `_x` suffix |
| Join.SuffixRenameKeeps | ReatimeBus-1.py:268-272 | the `_x` renaming keeps every other left column and its cells |
| Join.SuffixedJoin | ReatimeBus-1.py:268-272 | the merge with `_x`/`_y` suffixes never loses rows, and with unique keys keeps every other left column row for row |
| Join.SuffixedJoinPlain | ReatimeBus-1.py:268-272 | without colour or operator on the left no label is touched |
| Join.LeftJoin | ReatimeBus-1.py:268-272 | no `Line_ID` is a KeyError; the row count never decreases and is unchanged with unique reference keys; every left column other than colour and operator comes through row for row |
| Temporal.DayNumber | ReatimeBus-1.py:287-288 | the floor day of an epoch second: the day's first second is at most t, and t falls before the next day's |
| Temporal.SecondOfDay | ReatimeBus-1.py:289 | the second of the day lies in [0, 86400) and recomposes t with the day number |
| Temporal.WeekdayIndex | ReatimeBus-1.py:290-291 | the weekday index is (day + 3) mod 7, in [0, 7) |
| Temporal.WeekdayAdvances | ReatimeBus-1.py:290-291 | the epoch is a Thursday (3), a day later is the next weekday, and a week later is the same weekday |
| Temporal.DayName | ReatimeBus-1.py:290 | a weekday name is non-empty and capitalised |
| Temporal.Pad2 | ReatimeBus-1.py:289 | a two-digit zero-padded rendering |
| Temporal.FormatClock | ReatimeBus-1.py:289 | `%H:%M:%S` is eight characters with colons at positions 2 and 5 |
| Temporal.ParseClock | ReatimeBus-1.py:440 | a time text that reads back gives a second of the day, below 86400 |
| Temporal.Pad2Value | ReatimeBus-1.py:289 | the digits of a padded number read back as the number |
| Temporal.ClockParts | ReatimeBus-1.py:289 | a second of the day splits into hours, minutes and seconds in range that recompose it |
| Temporal.ClockPartsUnique | ReatimeBus-1.py:289 | in-range hours, minutes and seconds determine the second of the day |
| Temporal.ParseClockOf | ReatimeBus-1.py:440 | a string of three padded parts reads back exactly when the parts are in range |
| Temporal.ParseFormatClock | ReatimeBus-1.py:289 | reading back a rendered clock gives the second of the day |
| Temporal.FormatParseClock | ReatimeBus-1.py:440 | a clock that reads back renders to the same text |
| Temporal.PadOfDigits | ReatimeBus-1.py:440 | two digits read as a number pad back to the same two digits |
| Temporal.EpochOf | ReatimeBus-1.py:287 | `to_datetime(unit='s')` of an integer is that instant, and NaN gives NaT |
| Temporal.EpochOfInstant | ReatimeBus-1.py:287-288 | reading the derived `Datetime` back gives the epoch it came from |
| Temporal.DateCell | ReatimeBus-1.py:288 | the date of an instant is its floor day, and NaT gives NaN |
| Temporal.ClockCell | ReatimeBus-1.py:289 | the time text of an instant reads back as its second of the day, and NaT gives NaN |
| Temporal.TimeObjectCell | ReatimeBus-1.py:125 | `.dt.time` of an instant is a time-of-day object within the day, the one the instant's `HH:MM:SS` text reads back as, and NaT gives NaN |
| Temporal.DayNameCell | ReatimeBus-1.py:290 | the day of an instant is the name of its weekday, and NaT gives NaN |
| Temporal.WorkdayCell | ReatimeBus-1.py:291 | the workday flag is a boolean that holds exactly when the weekday index is below 5, so NaT gives False |
| Tables.SetColumn | ReatimeBus-1.py:287-291 | a derived column adds or overwrites one label in every row, computed from that row |
| Pipeline.AddTimeFields | ReatimeBus-1.py:285-291 | without `Timestamp` the table is unchanged; with it the five time labels are added |
| Pipeline.TimeFieldsCells | ReatimeBus-1.py:287-291 | each row's Date, Time, Day and Workday are those of its own `Timestamp` |
| Pipeline.TimeFieldsKeep | ReatimeBus-1.py:287-291 | the time fields leave every other column and cell alone |
| District.FirstComponent | ReatimeBus-1.py:323-327 | the `or` chain yields a non-empty component or nothing |
| District.FirstComponentSpec | ReatimeBus-1.py:323-327 | the chain yields the first non-empty component in key order, and nothing exactly when all are empty |
| District.GetDistrict | ReatimeBus-1.py:313-331 | never empty; a NaN coordinate gives "Invalid coordinates"; a failed or empty lookup gives "Unknown"; otherwise the first non-empty of suburb, neighbourhood, city_district, town, or "Unknown" |
| District.ScriptDistrict | ReatimeBus-1.py:315-331 | with the never-assigned geolocator, a position is "Invalid coordinates" for a NaN coordinate and "Unknown" otherwise |
| Pipeline.AddDistrict | ReatimeBus-1.py:334-337 | each row gets the district of its own coordinates; a missing coordinate column is a KeyError |
| Pipeline.AddDefaults | ReatimeBus-1.py:350-353 | a missing colour or operator column is added with "Unknown" in every row, and existing cells are kept |
| Pipeline.StripKeeps | ReatimeBus-1.py:347 | a label that starts and ends with a letter survives the strip with its cells |
| Pipeline.SelectKeeps | ReatimeBus-1.py:356-370 | a selected label survives the selection and the later drop with its cells |
| Pipeline.LateDropIsNoop | ReatimeBus-1.py:367-370 | after the final selection none of the later drop's labels is present, so that drop changes nothing |
| Pipeline.Tidy | ReatimeBus-1.py:347-370 | the strip, defaults, selection and later drop keep the row count |
| Pipeline.TidyKeeps | ReatimeBus-1.py:347-370 | a selected letter-bounded label keeps its cells through those stages |
| Pipeline.TidyDistrict | ReatimeBus-1.py:347-370 | the district cell survives those stages |
| Pipeline.TidyTime | ReatimeBus-1.py:347-370 | the Date, Time, Day and Workday cells survive those stages |
| Pipeline.Finish | ReatimeBus-1.py:285-370 | the stages after the join keep the row count |
| Pipeline.FinishDistrict | ReatimeBus-1.py:285-370 | every finished row carries the district of its own joined coordinates |
| Pipeline.FinishTime | ReatimeBus-1.py:285-370 | with a `Timestamp` column every finished row carries the time fields of its own timestamp |
| Text.NatToString | ReatimeBus-1.py:432 | the decimal rendering of a natural number is a non-empty digit string |
| Text.IntToString | ReatimeBus-1.py:432 | `str(n)` is non-empty |
| Text.DigitChar | ReatimeBus-1.py:289 | a digit below ten renders as the matching digit character |
| Text.DigitValue | ReatimeBus-1.py:431 | a digit character's value is below ten |
| Text.ParseInt | ReatimeBus-1.py:431 | text is numeric exactly when it is an optionally signed run of digits |
| Text.DigitsValueOfNat | ReatimeBus-1.py:431 | the digits of a rendered natural number read back as that number |
| Text.ParseIntToString | ReatimeBus-1.py:431 | reading back `str(n)` gives n for every integer |
| Coerce.Truncate | ReatimeBus-1.py:431 | `astype(int)` truncates toward zero |
| Coerce.Numeric | ReatimeBus-1.py:431-442 | `to_numeric(errors='coerce')`: NaN stays NaN; an integer, float or boolean gives its number; text gives the integer it spells or NaN; dates, instants and time objects give NaN |
| Coerce.CoerceInt | ReatimeBus-1.py:441-442 | by case: NaN gives 0, an integer itself, a float its truncation toward zero, a boolean 1 or 0, text the integer it spells or 0, and a date, instant or time object 0 |
| Coerce.CoerceFloat | ReatimeBus-1.py:433-435 | by case: NaN gives 0.0, a number itself, a boolean 1.0 or 0.0, text the integer it spells or 0.0, and a date, instant or time object 0.0 |
| Coerce.CoerceAgree | ReatimeBus-1.py:431-442 | the integer coercion is the float coercion truncated toward zero |
| Coerce.TruncateWhole | ReatimeBus-1.py:431 | truncating a whole number gives it back |
| Coerce.CoerceIntExact | ReatimeBus-1.py:431 | integers and their decimal texts survive the integer coercion |
| Coerce.CoerceNonNumeric | ReatimeBus-1.py:431 | non-numeric text and NaN coerce to 0 |
| Coerce.DayCoercesToZero | ReatimeBus-1.py:441 | every `Day` value (a weekday name or NaN) coerces to 0 |
| Coerce.WorkdayCoercion | ReatimeBus-1.py:442 | the `'bool'` cast keeps the workday flag, which then coerces to 1 on Monday to Friday and to 0 otherwise, NaT included |
| Coerce.ToText | ReatimeBus-1.py:432-437 | `astype(str)`: NaN becomes "nan", text stays, an integer becomes text that reads back as it, a boolean "True" or "False" |
| Coerce.DateOf | ReatimeBus-1.py:439 | the date is present exactly for a calendar-day cell |
| Coerce.TimeOf | ReatimeBus-1.py:440 | a present time is a second of the day whose rendering is the cell's text; readable clock text gives its second; NaN and a time object give NaT |
| Coerce.StringCast | ReatimeBus-1.py:403-418 | the `'string'` dtype keeps text and NaN (as `pd.NA`), renders an integer as text that reads back as it, and a boolean as "True"/"False" |
| Coerce.StringCastCoerce | ReatimeBus-1.py:418-431 | an integer id survives the string cast and the integer coercion; a boolean becomes non-numeric text, hence 0 |
| Coerce.StringText | ReatimeBus-1.py:413-438 | `astype(str)` of a `'string'` column renders a missing cell as "<NA>" and a present one as `astype(str)` does |
| Coerce.BoolCast | ReatimeBus-1.py:414-418 | the `'bool'` dtype uses Python truthiness: NaN is true, a number is true unless zero, text is true unless empty |
| Coerce.CoerceId | ReatimeBus-1.py:404-436 | an id cell after the string cast and the integer coercion: an integer or the integer a text spells, 0 for NaN and other text, 0 for a boolean |
| Coerce.WorkdayFlag | ReatimeBus-1.py:414-442 | `Workday` after the bool cast and the integer coercion is 0 or 1: 1 for NaN, the flag of a boolean, non-zero for a number and non-empty for text |
| Coerce.ToClock | ReatimeBus-1.py:421-422 | the time-of-day parse: clock text gives its time object exactly when it reads back, NaN stays NaT, and a time object or an unreadable value raises |
| Coerce.ClockOfClockCell | ReatimeBus-1.py:421-422 | the `HH:MM:SS` text of an instant parses to the time object of its second of the day |
| Coerce.TimeOfClock | ReatimeBus-1.py:421-440 | after the time-of-day parse the coercing parse of line 440 gives NaT for every cell |
| Pipeline.ToSink | ReatimeBus-1.py:403-442 | per field: an integer id or id text is stored as that integer and NaN as 0; a float coordinate or speed as is and NaN as 0.0; status and district text kept; a missing `Travel_ID` as "<NA>"; the date exactly for a calendar day; a missing or parsed time as NaT; `Day` NaN as 0; `Workday` as 1/0 for a flag and 1 for NaN |
| Pipeline.ClockObjects | ReatimeBus-1.py:421-422 | no `Time` column is a KeyError and no rows an IndexError; a first cell that is a time object leaves the table as it is; otherwise only `Time` changes, columns and row count are kept, and the error is an unparsable time |
| Pipeline.ClockObjectsParse | ReatimeBus-1.py:421-422 | when the first cell is not a time object, the parse succeeds exactly when every cell parses, and each row's `Time` is then its own cell parsed |
| Pipeline.RecastCells | ReatimeBus-1.py:421-422 | a row's re-parsed `Time` is the parse of its own cell |
| Pipeline.RecastKeeps | ReatimeBus-1.py:421-422 | the re-parse leaves every other column's cells alone |
| Pipeline.FinishClockText | ReatimeBus-1.py:285-292 | before the time-of-day parse, each finished row's `Time` is the `HH:MM:SS` text of its own timestamp |
| Pipeline.RecastClockText | ReatimeBus-1.py:421-422 | in a table whose `Time` holds clock text, each row's text becomes the time object of its instant |
| Pipeline.ToSinkAll | ReatimeBus-1.py:468-475 | one insert per row, in row order |
| Pipeline.SinkTime | ReatimeBus-1.py:418-442 | a row with derived and re-parsed time fields goes to the insert with its floor day (NaT without an instant), a NaT time, `Day` 0, and `Workday` 1 exactly on Monday to Friday |
| Pipeline.FinishKeeps | ReatimeBus-1.py:285-370 | a final column that no later stage writes keeps its joined cells |
| Pipeline.JoinedCell | ReatimeBus-1.py:268-272 | a combined column other than colour and operator keeps its cells through a join on unique keys |
| Pipeline.Reconcile | ReatimeBus-1.py:241-475 | at least \|CM\|+\|CL\| records, exactly that many with unique colour keys |
| Pipeline.ReconcileStages | ReatimeBus-1.py:241-475 | a successful reconciliation passed every stage and inserts the re-parsed finished rows |
| Pipeline.ReconcileDistrictOf | ReatimeBus-1.py:285-337 | each record's district is the one looked up from its joined row's coordinates |
| Pipeline.ReconcileDistricts | ReatimeBus-1.py:313-337 | every record's district is non-empty text, whatever the colour table holds |
| Pipeline.ReconcileClockTime | ReatimeBus-1.py:421-422 | with a `Timestamp` column, each row's re-parsed `Time` is the parse of its instant's clock text |
| Pipeline.ReconcileClock | ReatimeBus-1.py:285-422 | with a `Timestamp` column, each row reaches the sink with the date, day and workday of its timestamp and the re-parsed clock text |
| Pipeline.ReconcileCoordinates | ReatimeBus-1.py:241-337 | with unique colour keys and CM coordinates, the district is looked up from the combined row's position |
| Pipeline.ReconcileTimes | ReatimeBus-1.py:241-442 | with unique colour keys and a CM `Timestamp`, each record's date, day and workday come from its own timestamp, NaT for CL rows without one, and its time is NaT |
| Pipeline.ReconcileTravel | ReatimeBus-1.py:241-438 | with unique colour keys, a CL record is stored with `Travel_ID` "<NA>" when only CM has that column |
| Pipeline.ReconcileFields | ReatimeBus-1.py:241-475 | with unique colour keys: each district is non-empty text and, with CM coordinates, that of the record's own position; with a CM `Timestamp`, each record's date, day and workday come from its own timestamp and its time is NaT; CL records store "<NA>" as `Travel_ID` when only CM has it |
| Pipeline.ReconcileScriptDistrict | ReatimeBus-1.py:313-337 | with the script's geocoder every district is "Unknown" or "Invalid coordinates" |
| Pipeline.Run | ReatimeBus-1.py:117-475 | no CL vehicles is the `NoVehicleData` failure; an empty CM response is the `Current_Status` KeyError; at least \|CM\|+\|CL\| records, exactly that many with unique colour keys |
| Pipeline.RunScriptDistrict | ReatimeBus-1.py:313-337 | the script as written stores no district other than "Unknown" and "Invalid coordinates" |
| Pipeline.RunMetropolitanaTimes | ReatimeBus-1.py:214-442 | with unique colour keys and CM records carrying `timestamp`, the first \|CM\| records carry the date, day 0 and workday of their own CM `timestamp`, and a NaT time |
| Pipeline.RunCarrisTimes | ReatimeBus-1.py:129-442 | with unique colour keys, when CM carries `timestamp` and no CL field is itself named `Timestamp`, the records after the CM ones (the CL vehicles) have NaT date and time, `Day` 0 and `Workday` 0 |
| Pipeline.RunCarrisTravel | ReatimeBus-1.py:138-438 | with unique colour keys, when CM carries `block_id` and no CL field is named `Travel_ID`, every CL record stores `Travel_ID` as "<NA>" |

## Left out

- HTTP fetches and their status checks (lines 63-70, 168-188): network I/O.
  The model starts from decoded entities and CM records.
- Protobuf decoding (lines 72-73): a foreign library. A message is a list of
  set fields in `ListFields()` order.
- Nominatim (line 320): an abstract function parameter. The script leaves
  `geolocator` unassigned, which `District.UnassignedGeolocator` models.
- CSV reads and writes (lines 257, 261, 397), the pyodbc connection, inserts
  and commit (lines 449-484), and all `tabulate`/`print` output: I/O.
  `Pipeline.Run` returns the records in insert order instead.
- The other casts of `astype(dtype_mapping)` (lines 403-418): `category` for
  status, district and day, `float64` for coordinates and speed, and
  `datetime64[ns]` for `Date`. They keep the values the pipeline produces.
  The ValueError a `float64` cast raises on non-numeric text is not modelled.
  The `'string'` and `'bool'` casts, which do change stored values, are
  modelled (`Coerce.StringCast`, `Coerce.BoolCast`).
- Pipeline.ClockObjects: numbers, booleans and date texts in `Time` are
  treated as unparsable; pandas would read a number as nanoseconds since the
  epoch and a date text as midnight. With a `Timestamp` column, `Time` holds
  only `HH:MM:SS` text or NaN when line 422 runs.
- Coerce.ToClock: the same restriction as `Pipeline.ClockObjects`.
- The driver's binding of NaT (lines 468-475): a missing date or time is
  modelled as NaT (`None` in `Pipeline.SinkRecord`). `pd.NaT` is passed to
  pyodbc as it is; whether the driver stores it as SQL NULL or rejects it is
  not modelled, because the insert is I/O.
- Status.StatusText: the map lookup is modelled with Python `==`, so `True`
  finds key 1 and `False` key 0. That holds for a column of mixed object
  values. pandas looks a column holding only booleans up in the integer
  index without matching booleans to numbers, and maps every cell to NaN.
  The model has no column dtypes, so it does not tell the two apart.
  Protobuf enum fields are integers, never booleans.
- Status.EqualsCodeExamples: its boolean cases (`True` is key 1, `False` is
  key 0) carry the same restriction as `Status.StatusText`.
- `fix_encoding` (lines 384-391): it is applied only to a hard-coded demo list
  and never touches pipeline data.
- Floating point: Latitude, Longitude and Speed are opaque reals. Float text
  such as "38.7" is not parsed by `Text.ParseInt`, so it coerces to NaN.
- Coerce.Numeric: text is numeric only in its signed-integer form. Decimal,
  exponent and whitespace-padded spellings that pandas also accepts are not
  modelled.
- Coerce.ToText: floats, dates and instants keep their value rather than
  Python's textual rendering.
- Temporal.DateCell: `strftime('%Y-%m-%d')` and the later
  `to_datetime(errors='coerce')` are modelled together as the calendar day
  number. The Y-M-D text in between is not.
- Temporal.EpochOf: text and boolean timestamps are treated as NaT. pandas
  would parse or reject them.
- Temporal.EpochOf: any integer second is an instant. pandas raises
  OutOfBoundsDatetime beyond the `datetime64[ns]` range (about ±9.2e9
  seconds from the epoch); that error is not modelled.
- Coerce.CoerceInt: `astype(int)` at lines 431, 436, 441 and 442 yields
  int64. Values outside that range are neither wrapped nor rejected here.
- Coerce.CoerceId: the same int64 limit as `Coerce.CoerceInt`.
- Tables.Rename: a rename that gives two columns one label is an error here.
  pandas would keep duplicate labels and misbehave later.
- Tables.RenameAll: a relabelling that gives two columns one label is an
  error here (`DuplicateColumn`). `df.columns = ...` never raises; pandas
  keeps both columns under one label. Rows are maps, so the model cannot
  hold duplicate labels.
- Tables.StripNames: the same as `Tables.RenameAll`. `columns.str.strip()`
  at lines 263 and 347 never raises, and two labels that strip alike both
  survive in pandas.
- Join.LeftJoin: cells are compared by value, and the model has no column
  dtypes. pandas raises a ValueError at line 268 when one side's `Line_ID`
  is text (object dtype) and the other's is int64, as a colour CSV with
  numeric `LineID` values gives. That failure is not modelled.
- Gtfs.Flatten: protobuf fields are scalars or nested messages. A repeated
  field, a list that has no `ListFields`, is stored whole at line 84; the
  model has no list-valued fields.
- The `Day` value is the raw weekday name produced at line 290; its
  `category` cast at line 418 keeps the value and is left out.
