# Vehicle telemetry ETL: transform and load

A Dafny model of the two-stage core of a vehicle-telemetry pipeline.
`transform_data` cleans a table of CSV records. It coerces the four numeric
columns, drops rows without a vin or without a readable date-time, splits
the geolocation into latitude and longitude, and fills mileage gaps by
linear interpolation. `load_data` then walks the cleaned table row by row
against a store of vehicles (`Vin`, unique by vin text) and samples
(`VehicleData`, each referring to a vehicle by id).

Modules:

- `Cells`: missing cells (`Option`), steps that may raise (`Result`), and
  the coercion of a text cell to a number.
- `Text`: Python's `str.split` and `join`, substring search, ASCII
  upper-casing and fixed-width decimal digits.
- `DateTimes`: reading and writing the fixed pattern `%d/%m/%Y %H:%M:%S`.
  A date-time is accepted only when it is a calendar date that a nanosecond
  pandas timestamp can hold.
- `Interpolation`: pandas' default `Series.interpolate()` and `fillna`.
- `Tables`: the raw and cleaned row types, and row-wise map and filter with
  their algebra.
- `TransformVehicleCsv`: `transform_data` as a composition of whole-table
  steps. The geolocation split returns a `Result`, because the code raises
  there.
- `LoadVehicleCsv`: the per-row cleaning of the loader (`fillna(0)`, the
  clamps, the engine-status rule). `Store` is a class holding the two
  relations, with `LoadData` as a loop proved against the functions
  `VinsAfter` and `SamplesAfter`.
- `Pipeline`: the `/load-data` wiring, where the transformed table is the
  loaded one, and a three-row example taken through both stages.

The text-to-number conversion used by `to_numeric` and `astype(float)` is
a parameter (`NumberParser`). It classifies a text as a number, a NaN
text or unreadable. Everything else is concrete.

What the code does, and the model with it, at the points that are easy to
misread:

- A malformed geolocation makes `transform_data` raise. `astype(float)`
  raises on an unreadable piece, and, when every piece reads, the
  two-column assignment raises unless the split gives exactly two columns
  (`TransformFails`, `UnreadableReportedFirst`).
- Trailing mileage gaps take the last known value, as pandas' default
  interpolation does (`TrailingGap`). Leading gaps stay missing
  (`LeadingGap`).
- The clamps of speed and charging power and the engine-status rule are
  applied by the loader, row by row (`ToSample`).
- The loader's `fillna(0)` writes missing numbers as 0, missing text as
  "0" and a missing date-time as the Unix epoch (`MissingBecomesZero`).
- Only a missing vin is dropped. An empty vin text that survives reading is
  kept (`HasVin`).
- A new vehicle is committed at once. That commit also commits every sample
  added before it, because a session commit flushes all pending objects.
  The remaining samples are committed after the loop (`Store.LoadRow`,
  `Store.LoadData`).

## Model

| member | source | states |
|---|---|---|
| `Cells.CoerceNumeric` | src/etl/transform_vehicle_csv.py:8-12 | "Null", NaN text and unreadable text become missing, and nothing raises; a cell is a number exactly when it is present, not the sentinel, and reads as a number, and then it is that number |
| `Text.Split` | src/etl/transform_vehicle_csv.py:26 | a split always has at least one piece |
| `Text.SplitPiecesFree` | src/etl/transform_vehicle_csv.py:26 | no piece of a split contains the separator |
| `Text.JoinSplit` | src/etl/transform_vehicle_csv.py:26 | joining the pieces of a split with the separator gives back the text |
| `Text.SplitJoin` | src/etl/transform_vehicle_csv.py:26 | splitting a join of separator-free pieces gives back the pieces |
| `Text.SplitPair` | src/etl/transform_vehicle_csv.py:26 | "a,b" with comma-free halves splits into exactly `[a, b]` |
| `Text.HasInfix` | src/etl/load_vehicle_csv.py:42 | Python's substring test `w in s`; characterised by `Text.HasInfixOccurs` |
| `Text.Upper` | src/etl/load_vehicle_csv.py:41 | upper-casing keeps the length and upper-cases each character in place |
| `Text.HasInfixOccurs` | src/etl/load_vehicle_csv.py:42 | Python's `w in s` holds exactly when `w` occurs at some position of `s` |
| `Text.ShowThenRead` | src/etl/transform_vehicle_csv.py:19-20 | reading the zero-padded digits of a number that fits the width gives the number back |
| `Text.ReadThenShow` | src/etl/transform_vehicle_csv.py:19-20 | writing back the value of a digit string at its width gives the string back |
| `DateTimes.Parse` | src/etl/transform_vehicle_csv.py:19-20 | whatever the reading accepts is a valid calendar date-time within the pandas timestamp range |
| `DateTimes.ParseThenFormat` | src/etl/transform_vehicle_csv.py:19-20 | writing an accepted date-time with the pattern gives back the text character for character |
| `DateTimes.ParseFormat` | src/etl/transform_vehicle_csv.py:19-20 | the written form of any date-time with fields that fit is read back as that date-time exactly when it is valid, and refused otherwise |
| `DateTimes.ValidRoundTrip` | src/etl/transform_vehicle_csv.py:19-20 | every valid date-time survives writing and reading back |
| `DateTimes.February29In2023` | src/etl/transform_vehicle_csv.py:20 | "29/02/2023 10:00:00" is refused, since 2023 is not a leap year |
| `DateTimes.February29In2024` | src/etl/transform_vehicle_csv.py:20 | "29/02/2024 10:00:00" is read as that date-time |
| `Interpolation.PrevKnownIs` | src/etl/transform_vehicle_csv.py:29 | a known entry with only gaps between it and a position is the nearest known entry before that position |
| `Interpolation.PrevKnownNone` | src/etl/transform_vehicle_csv.py:29 | with only gaps before a position, there is no known entry before it |
| `Interpolation.PrevKnownFound` | src/etl/transform_vehicle_csv.py:29 | any known entry before a position means a nearest one is found |
| `Interpolation.NextKnownIs` | src/etl/transform_vehicle_csv.py:29 | a known entry with only gaps between a position and it is the nearest known entry at or after that position |
| `Interpolation.NextKnownNone` | src/etl/transform_vehicle_csv.py:29 | with only gaps from a position on, there is no known entry at or after it |
| `Interpolation.Interpolate` | src/etl/transform_vehicle_csv.py:29 | one entry per row; its values are characterised by `KnownUnchanged`, `InteriorGap`, `LeadingGap` and `TrailingGap` |
| `Interpolation.FillNa` | src/etl/transform_vehicle_csv.py:29 | `fillna` keeps every known entry, and leaves an entry missing only where the filler misses it too |
| `Interpolation.KnownUnchanged` | src/etl/transform_vehicle_csv.py:29 | known mileage values never change |
| `Interpolation.InteriorGap` | src/etl/transform_vehicle_csv.py:29 | a gap at k between known entries at i and j becomes m_i + (m_j - m_i)(k - i)/(j - i) |
| `Interpolation.LeadingGap` | src/etl/transform_vehicle_csv.py:29 | gaps before the first known entry stay missing |
| `Interpolation.TrailingGap` | src/etl/transform_vehicle_csv.py:29 | gaps after the last known entry take that entry |
| `Interpolation.NoGapAfterFirstKnown` | src/etl/transform_vehicle_csv.py:29 | from the first known entry on, the interpolated column has no gaps |
| `Interpolation.LinearBetween` | src/etl/transform_vehicle_csv.py:29 | a linearly filled gap lies between its two neighbours |
| `Interpolation.FillWithInterpolation` | src/etl/transform_vehicle_csv.py:29 | filling the mileage gaps with the column's own interpolation, as the source does, gives the interpolation itself |
| `Interpolation.MidpointExample` | src/etl/transform_vehicle_csv.py:29 | [10, _, 30] becomes [10, 20, 30] |
| `Interpolation.LeadingExample` | src/etl/transform_vehicle_csv.py:29 | [_, 10, 20] keeps its first entry missing |
| `Interpolation.TrailingExample` | src/etl/transform_vehicle_csv.py:29 | [10, _, _] becomes [10, 10, 10] |
| `Tables.Filter` | src/etl/transform_vehicle_csv.py:15 | a filter never adds rows, and every row it keeps passes the test |
| `Tables.KeptPositions` | src/etl/transform_vehicle_csv.py:15 | the positions that pass the test, strictly ascending, and all of them |
| `Tables.FilterSelects` | src/etl/transform_vehicle_csv.py:15-23 | the k-th kept row is the input row at the k-th passing position, so survivors keep their relative order |
| `Tables.FilterMap` | src/etl/transform_vehicle_csv.py:12-15 | filtering after a row-wise step equals that step after filtering by the composed test |
| `Tables.FilterFilter` | src/etl/transform_vehicle_csv.py:15-23 | two filters in a row are one filter by the conjunction |
| `Tables.MapMap` | src/etl/transform_vehicle_csv.py:12-20 | two row-wise steps are one step by the composition |
| `TransformVehicleCsv.CoerceRow` | src/etl/transform_vehicle_csv.py:8-12 | the four numeric columns coerced and the others carried over; characterised through `CleanedRow` and `TransformKeepsSurvivors` |
| `TransformVehicleCsv.DropMissingVin` | src/etl/transform_vehicle_csv.py:15 | the vin filter; characterised by `Tables.FilterSelects` and `PrepareKeepsSurvivors` |
| `TransformVehicleCsv.ParseDateRow` | src/etl/transform_vehicle_csv.py:18-20 | the date text and the date-time read from it with the fixed pattern; characterised by `DateHourText` and `DateTimes.ParseFormat` |
| `TransformVehicleCsv.DropMissingDate` | src/etl/transform_vehicle_csv.py:23 | the date filter; characterised by `Tables.FilterSelects` and `PrepareKeepsSurvivors` |
| `TransformVehicleCsv.Prepare` | src/etl/transform_vehicle_csv.py:8-23 | the steps before the split, in the source's order; characterised by `PrepareKeepsSurvivors` |
| `TransformVehicleCsv.DateHourText` | src/etl/transform_vehicle_csv.py:18 | a missing `datehour` becomes text that never reads as a date, and a present one is kept as it is |
| `TransformVehicleCsv.Width` | src/etl/transform_vehicle_csv.py:26 | the column count of `split(expand=True)` is at least every cell's piece count, and 0 for an empty table |
| `TransformVehicleCsv.WidthReached` | src/etl/transform_vehicle_csv.py:26 | the column count of a non-empty column is the piece count of one of its cells, so it is the largest |
| `TransformVehicleCsv.AsFloat` | src/etl/transform_vehicle_csv.py:26 | `float()` raises exactly on unreadable text, gives missing exactly on NaN text, and otherwise gives the number |
| `TransformVehicleCsv.SplitCell` | src/etl/transform_vehicle_csv.py:26 | a missing cell gives two missing coordinates and a one-piece cell a missing longitude, as the expanding split pads short rows; failure is characterised by `SplitCellFails` |
| `TransformVehicleCsv.SplitCellFails` | src/etl/transform_vehicle_csv.py:26 | one cell fails exactly when one of its pieces is unreadable |
| `TransformVehicleCsv.SplitPairCell` | src/etl/transform_vehicle_csv.py:26 | "a,b" with readable halves gives latitude a and longitude b |
| `TransformVehicleCsv.SplitExample` | src/etl/transform_vehicle_csv.py:26 | "40.7,-74.0" gives latitude 40.7 and longitude -74.0 |
| `TransformVehicleCsv.SplitRows` | src/etl/transform_vehicle_csv.py:26 | on success, each row gets the coordinates of its own cell and nothing else changes |
| `TransformVehicleCsv.SplitRowsFails` | src/etl/transform_vehicle_csv.py:26 | splitting the rows fails exactly when some row's cell fails |
| `TransformVehicleCsv.FirstUnreadableIn` | src/etl/transform_vehicle_csv.py:26 | whatever piece the search returns is unreadable |
| `TransformVehicleCsv.FirstUnreadableInNone` | src/etl/transform_vehicle_csv.py:26 | the search of a cell's pieces finds nothing exactly when every piece reads |
| `TransformVehicleCsv.UnreadablePiece` | src/etl/transform_vehicle_csv.py:26 | whatever piece of a cell it returns is unreadable |
| `TransformVehicleCsv.UnreadablePieceFound` | src/etl/transform_vehicle_csv.py:26 | a cell yields an unreadable piece exactly when it has one |
| `TransformVehicleCsv.FirstUnreadable` | src/etl/transform_vehicle_csv.py:26 | whatever piece the column search returns is unreadable |
| `TransformVehicleCsv.FirstUnreadableNone` | src/etl/transform_vehicle_csv.py:26 | the column search finds nothing exactly when no cell has an unreadable piece |
| `TransformVehicleCsv.SplitGeolocation` | src/etl/transform_vehicle_csv.py:26 | fails when the split does not give two columns (the float conversion is tried first); on success, every cell has at most two pieces, each row gets its cell's coordinates and nothing else changes |
| `TransformVehicleCsv.SplitGeolocationFails` | src/etl/transform_vehicle_csv.py:26 | the split fails exactly when the width is not 2 or some cell has an unreadable piece |
| `TransformVehicleCsv.UnreadableReportedFirst` | src/etl/transform_vehicle_csv.py:26 | an unreadable piece anywhere makes the split raise the float error, with an unreadable text, even when the width is also wrong |
| `TransformVehicleCsv.TooManyPiecesFails` | src/etl/transform_vehicle_csv.py:26 | a cell with three or more pieces makes the whole split fail |
| `TransformVehicleCsv.FillMileage` | src/etl/transform_vehicle_csv.py:29 | only the mileage column changes, and it becomes its interpolation |
| `TransformVehicleCsv.TransformData` | src/etl/transform_vehicle_csv.py:4-31 | a successful transform never adds rows, and every row it returns has a vin and a parsed date-time |
| `TransformVehicleCsv.PrepareKeepsSurvivors` | src/etl/transform_vehicle_csv.py:9-23 | coercion, the vin filter, date parsing and the date filter keep exactly the rows with a vin and a readable date, in input order, each coerced and parsed |
| `TransformVehicleCsv.PreparedRows` | src/etl/transform_vehicle_csv.py:15-23 | every row reaching the split has a vin and a parsed date-time, and no row was added |
| `TransformVehicleCsv.TransformKeepsSurvivors` | src/etl/transform_vehicle_csv.py:4-31 | the k-th output row is the k-th surviving input row: same vin, company, geolocation and engine status, coerced numbers (only mileage gap-filled), the parsed date-time, its own coordinates, and the k-th entry of the survivors' interpolated mileage |
| `TransformVehicleCsv.TransformFails` | src/etl/transform_vehicle_csv.py:4-31 | the transform fails exactly when the survivors' geolocations do not split into two columns or one has an unreadable piece |
| `LoadVehicleCsv.ClampNonNegative` | src/etl/load_vehicle_csv.py:37-38 | the stored value is never negative; a non-negative input is kept, and a negative or missing one becomes 0 |
| `LoadVehicleCsv.FillText` | src/etl/load_vehicle_csv.py:28 | a missing text cell is stored as "0"; characterised by `MissingBecomesZero` |
| `LoadVehicleCsv.FillDate` | src/etl/load_vehicle_csv.py:28-34 | a missing date-time becomes the Unix epoch; characterised by `MissingBecomesZero` |
| `LoadVehicleCsv.NormalizeEngineStatus` | src/etl/load_vehicle_csv.py:41-42 | the stored status is always "ON" or "OFF" |
| `LoadVehicleCsv.EngineStatusRule` | src/etl/load_vehicle_csv.py:41-42 | the status is "ON" exactly when "ON" or "1" occurs in the upper-cased text, with a missing status read as "0" |
| `LoadVehicleCsv.EngineOnExamples` | src/etl/load_vehicle_csv.py:41-42 | "on", "10" and "NONE" are on |
| `LoadVehicleCsv.EngineOffExamples` | src/etl/load_vehicle_csv.py:41-42 | "off", "", "xyz" and a missing status are off |
| `LoadVehicleCsv.ToSample` | src/etl/load_vehicle_csv.py:45-57 | a sample refers to the given vehicle, has non-negative speed and charging power, and a canonical engine status |
| `LoadVehicleCsv.MissingBecomesZero` | src/etl/load_vehicle_csv.py:28-34 | every missing cell is stored as 0, "0" or the epoch instead of null, and every present cell is stored as it is, apart from the clamps and the engine status |
| `LoadVehicleCsv.Lookup` | src/etl/load_vehicle_csv.py:18 | a vehicle found has the queried vin; characterised fully by `LookupFirst` |
| `LoadVehicleCsv.NextId` | src/api/models.py:10 | a new id is at least 1; characterised fully by `NextIdAbove` |
| `LoadVehicleCsv.LookupFirst` | src/etl/load_vehicle_csv.py:18 | the query finds nothing exactly when no vehicle has the vin; otherwise it finds the first one that has it |
| `LoadVehicleCsv.NextIdAbove` | src/api/models.py:10 | a new vehicle's id is larger than every id in use: one more than the largest, and 1 in an empty relation |
| `LoadVehicleCsv.WithVin` | src/etl/load_vehicle_csv.py:18-25 | looking up or creating a vehicle only appends, and at most one vehicle |
| `LoadVehicleCsv.WithVinFinds` | src/etl/load_vehicle_csv.py:18-25 | afterwards the vin finds the vehicle it found before, or the one just created |
| `LoadVehicleCsv.LookupExtend` | src/etl/load_vehicle_csv.py:18 | appending vehicles never changes which vehicle a present vin finds |
| `LoadVehicleCsv.WithVinKeepsKeys` | src/api/models.py:10-11 | looking up or creating a vehicle keeps the vin column unique and the ids distinct, and loses no id |
| `LoadVehicleCsv.VinsAfterPrefix` | src/etl/load_vehicle_csv.py:16-25 | loading more rows only appends vehicles and never changes one already there |
| `LoadVehicleCsv.VinsAfter` | src/etl/load_vehicle_csv.py:16-25 | the vehicle relation after the first n rows; characterised by `VinsAfterKeepsKeys`, `VinsAfterCovers`, `VinsAfterFromRows` and `ExactlyOneVinPerVin` |
| `LoadVehicleCsv.SamplesAfter` | src/etl/load_vehicle_csv.py:16-57 | one sample per loaded row; characterised by `SamplesAfterRows` and `SamplesReferToVins` |
| `LoadVehicleCsv.LookupStable` | src/etl/load_vehicle_csv.py:18-25 | once a vin has a vehicle, later rows never change which vehicle it finds |
| `LoadVehicleCsv.VinsAfterKeepsKeys` | src/api/models.py:10-11 | loading keeps the vin column unique and the ids distinct |
| `LoadVehicleCsv.VinsAfterCovers` | src/etl/load_vehicle_csv.py:18-25 | after loading, every row's vin has a vehicle |
| `LoadVehicleCsv.ExistingVinReused` | src/etl/load_vehicle_csv.py:18-25 | a vehicle already in the store is reused, not duplicated |
| `LoadVehicleCsv.VinsAfterFromRows` | src/etl/load_vehicle_csv.py:20-25 | every vehicle the load creates has the vin of some row |
| `LoadVehicleCsv.ExactlyOneVinPerVin` | src/etl/load_vehicle_csv.py:18-25 | after loading, each distinct vin of the input has exactly one vehicle, however many rows share it |
| `LoadVehicleCsv.SamplesAfterRows` | src/etl/load_vehicle_csv.py:45-57 | one sample per row, in row order; the k-th refers to the id of the vehicle whose vin is the k-th row's vin |
| `LoadVehicleCsv.SamplesReferToVins` | src/api/models.py:17 | every appended sample refers to an existing vehicle |
| `LoadVehicleCsv.LoadKnownVins` | src/etl/load_vehicle_csv.py:18-25 | loading rows whose vins all have a vehicle creates none |
| `LoadVehicleCsv.ReloadAddsNoVins` | src/etl/load_vehicle_csv.py:18-25 | loading the same rows a second time creates no vehicle |
| `LoadVehicleCsv.ReloadRepeatsSamples` | src/etl/load_vehicle_csv.py:45-57 | loading the same rows a second time appends the same samples again |
| `Pipeline.LoadTransformed` | src/api/endpoints.py:14-15 | the transformed table meets the loader's precondition, and loading it stores one sample per surviving raw row, dated with that row's parsed date-time |
| `Pipeline.ExampleFormat` | src/etl/transform_vehicle_csv.py:19 | the example date-time 2023-12-25 14:30:00 is written "25/12/2023 14:30:00" by the pattern |
| `Pipeline.ExampleDate` | src/etl/transform_vehicle_csv.py:19-20 | "25/12/2023 14:30:00" reads as 2023-12-25 14:30:00 |
| `Pipeline.ExampleSurvivors` | src/etl/transform_vehicle_csv.py:15-23 | of three rows with a vin, the one whose date-time is in another layout ("2023-12-25 14:30") is dropped and the other two are kept in order |
| `Pipeline.ExampleWhere` | src/etl/transform_vehicle_csv.py:26 | "40.7,-74.0" splits into two pieces, both readable |
| `Pipeline.ExampleSucceeds` | src/etl/transform_vehicle_csv.py:26 | the transform of the example does not raise |
| `Pipeline.ExampleTransform` | src/etl/transform_vehicle_csv.py:4-31 | the transform of the example returns the two kept rows, with vin "V1" and speeds -5 and 3 |
| `Pipeline.ExampleLoad` | src/api/endpoints.py:14-15 | loading the transformed example into an empty store creates one vehicle with id 1 and two samples referring to it; the negative speed is stored as 0 |
| `LoadVehicleCsv.Store.constructor` | src/api/models.py:7-26 | an empty store satisfies the schema constraints |
| `LoadVehicleCsv.Store.CreateTables` | src/etl/load_vehicle_csv.py:6-8 | creating tables that exist changes nothing |
| `LoadVehicleCsv.Store.FindVin` | src/etl/load_vehicle_csv.py:18 | the scan returns what `Lookup` specifies |
| `LoadVehicleCsv.Store.LoadRow` | src/etl/load_vehicle_csv.py:18-57 | one row: keeps the schema constraints, finds or creates the row's vehicle, and adds the row's sample; creating a vehicle commits it together with every pending sample, and a known vin commits nothing |
| `LoadVehicleCsv.Store.LoadData` | src/etl/load_vehicle_csv.py:10-60 | keeps the schema constraints; the vehicles become `VinsAfter` and the samples gain exactly `SamplesAfter`, one per row in order; no existing vehicle or sample is changed or removed |

## Left out

- The copy at src/etl/transform_vehicle_csv.py:5 is implicit. Tables are values, so no step can change the caller's table.
- Text-to-number conversion is a parameter (`NumberParser`), not a decimal parser. Floating-point rounding is not modelled, and numbers are `real`.
- One `NumberParser` serves both `to_numeric` (src/etl/transform_vehicle_csv.py:12) and `float()` under `astype(float)` (src/etl/transform_vehicle_csv.py:26). The two are assumed to classify every text the same way; texts they treat differently are not modelled.
- Date reading is exact. It requires two-digit day, month, hour, minute and second, a four-digit year and single separators. The leniency of pandas' format matcher (one-digit fields, other whitespace) is not modelled.
- `Text.Upper` changes ASCII letters only. Python's full Unicode upper-casing is not modelled.
- `TransformVehicleCsv.SplitGeolocation` reports the first unreadable piece in row order, and within a row the first piece. Which piece pandas names in its error message is not modelled.
- The mileage column is declared with an integer type (src/api/models.py:25). That column type is not modelled; `Sample.mileage` is `real`.
- SQLAlchemy engines, sessions and connections are replaced by the in-memory `Store`. Schema creation is a no-op on that store.
- Concurrent loads are not modelled. The model is single-threaded, so the read-then-insert race cannot occur.
- A failing insert or commit is not modelled. Loading never fails in the model.
- The surrogate id of `VehicleData` is not modelled. Samples are kept in insertion order.
- `LoadVehicleCsv.Store.LoadData` requires every row to have a vin. Rows from `transform_data` always do (`Pipeline.LoadTransformed`). What the database would do with a row without a vin is not modelled.
- The branch of src/etl/load_vehicle_csv.py:33-34 is dead, because `fillna(0)` leaves no missing date-time. `FillDate` gives the epoch that `to_datetime(0)` gives.
- pandas' chained-assignment semantics of `fillna(..., inplace=True)` at src/etl/transform_vehicle_csv.py:29 are not modelled. The mileage column is replaced by its interpolation, as intended.
- The HTTP layer, authentication and the front-end store are not part of this model. This covers src/api/main.py, src/api/authentication.py and fastapi-template/src/store/store.ts. `extract_data`, which reads the CSV file, is not part of this model either.
