/** The cleaning transform `transform_data`: numeric coercion, the vin and
    date filters, the geolocation split and the mileage interpolation,
    each a whole-table step applied to the result of the previous one. */
module TransformVehicleCsv {
  import opened Cells
  import opened Text
  import opened DateTimes
  import opened Interpolation
  import opened Tables

  /** Why the transform raises instead of returning a table. */
  datatype TransformError =
    | GeolocationColumns(width: nat)  // the split did not give exactly two columns
    | InvalidFloat(text: string)      // a piece `float()` cannot read

  const GEO_SEPARATOR: char := ','

  // ---------------------------------------------------------------------
  // Numeric coercion of mileage, chargingpower, remainingelectricalrange
  // and speed; the other columns are carried over unchanged.

  function CoerceRow(r: RawRecord, parse: NumberParser): Record
  {
    Record(
      vin := r.vin,
      company := r.company,
      datehour := r.datehour,
      geolocation := r.geolocation,
      enginestatus := r.enginestatus,
      mileage := CoerceNumeric(r.mileage, parse),
      chargingpower := CoerceNumeric(r.chargingpower, parse),
      remainingelectricalrange := CoerceNumeric(r.remainingelectricalrange, parse),
      speed := CoerceNumeric(r.speed, parse),
      dateHour := None,
      latitude := None,
      longitude := None)
  }

  function CoerceNumericColumns(raw: seq<RawRecord>, parse: NumberParser): seq<Record>
  {
    MapRows(raw, (r: RawRecord) => CoerceRow(r, parse))
  }

  // ---------------------------------------------------------------------
  // The vin filter.

  predicate HasVin(r: Record)
  {
    r.vin.Some?
  }

  function DropMissingVin(df: seq<Record>): seq<Record>
  {
    Filter(df, HasVin)
  }

  // ---------------------------------------------------------------------
  // The date column and its filter.

  /** `astype(str)` on the `datehour` column: a missing cell becomes the
      text "nan", which never reads as a date. */
  function DateHourText(cell: Option<string>): (t: string)
    ensures cell.None? ==> DateTimes.Parse(t) == None
    ensures cell.Some? ==> t == cell.value
  {
    match cell
    case None => "nan"
    case Some(text) => text
  }

  function ParseDateRow(r: Record): Record
  {
    var text := DateHourText(r.datehour);
    r.(datehour := Some(text), dateHour := DateTimes.Parse(text))
  }

  function ParseDateColumn(df: seq<Record>): seq<Record>
  {
    MapRows(df, ParseDateRow)
  }

  predicate HasDateHour(r: Record)
  {
    r.dateHour.Some?
  }

  function DropMissingDate(df: seq<Record>): seq<Record>
  {
    Filter(df, HasDateHour)
  }

  // ---------------------------------------------------------------------
  // The geolocation split.

  /** The number of pieces a cell splits into; a missing cell is one piece. */
  function PartCount(cell: Option<string>): nat
  {
    match cell
    case None => 1
    case Some(text) => |Split(text, GEO_SEPARATOR)|
  }

  function GeolocationColumn(df: seq<Record>): seq<Option<string>>
  {
    MapRows(df, (r: Record) => r.geolocation)
  }

  /** The number of columns the expanding split on commas produces: the
      most pieces any cell splits into, and none for an empty table. */
  function Width(cells: seq<Option<string>>): (w: nat)
    ensures forall k :: 0 <= k < |cells| ==> PartCount(cells[k]) <= w
    ensures |cells| == 0 ==> w == 0
    decreases |cells|
  {
    if |cells| == 0 then 0
    else
      var front := cells[..|cells| - 1];
      var w := Width(front);
      var p := PartCount(cells[|cells| - 1]);
      assert forall k :: 0 <= k < |front| ==> front[k] == cells[k];
      if p > w then p else w
  }

  /** The width of a non-empty column is the piece count of one of its
      cells. */
  lemma {:induction false} WidthReached(cells: seq<Option<string>>)
    requires |cells| > 0
    ensures exists k :: 0 <= k < |cells| && PartCount(cells[k]) == Width(cells)
    decreases |cells|
  {
    var last := |cells| - 1;
    var front := cells[..last];
    if |front| > 0 && Width(cells) == Width(front) {
      WidthReached(front);
      var k :| 0 <= k < |front| && PartCount(front[k]) == Width(front);
      assert front[k] == cells[k];
    } else {
      assert PartCount(cells[last]) == Width(cells);
    }
  }

  /** `float(text)` as `astype(float)` applies it: NaN text gives a
      missing value, unreadable text raises. */
  function AsFloat(text: string, parse: NumberParser): (r: Result<Option<real>, TransformError>)
    ensures r.Err? <==> parse(text).Unparseable?
    ensures r == Ok(None) <==> parse(text).NotANumber?
    ensures parse(text).Number? ==> r == Ok(Some(parse(text).value))
  {
    match parse(text)
    case Number(x) => Ok(Some(x))
    case NotANumber => Ok(None)
    case Unparseable => Err(InvalidFloat(text))
  }

  /** Latitude and longitude of one cell once the split has two columns:
      a missing cell gives two missing values, a one-piece cell a missing
      longitude. */
  function SplitCell(cell: Option<string>, parse: NumberParser): (r: Result<(Option<real>, Option<real>), TransformError>)
    requires PartCount(cell) <= 2
    ensures cell.None? ==> r == Ok((None, None))
    ensures r.Ok? && PartCount(cell) == 1 ==> r.value.1 == None
  {
    match cell
    case None => Ok((None, None))
    case Some(text) =>
      var parts := Split(text, GEO_SEPARATOR);
      var lat :- AsFloat(parts[0], parse);
      var lon :- if |parts| == 2 then AsFloat(parts[1], parse) else Ok(None);
      Ok((lat, lon))
  }

  /** One piece of the cell that `float()` cannot read. */
  ghost predicate HasUnreadablePiece(cell: Option<string>, parse: NumberParser)
  {
    cell.Some? &&
    exists i :: 0 <= i < |Split(cell.value, GEO_SEPARATOR)| && parse(Split(cell.value, GEO_SEPARATOR)[i]).Unparseable?
  }

  /** A cell fails exactly when one of its pieces cannot be read. */
  lemma SplitCellFails(cell: Option<string>, parse: NumberParser)
    requires PartCount(cell) <= 2
    ensures SplitCell(cell, parse).Err? <==> HasUnreadablePiece(cell, parse)
  {
    if cell.Some? {
      var parts := Split(cell.value, GEO_SEPARATOR);
      if HasUnreadablePiece(cell, parse) {
        var i :| 0 <= i < |parts| && parse(parts[i]).Unparseable?;
        assert i == 0 || i == 1;
      }
    }
  }

  /** "a,b" with readable halves gives latitude a and longitude b. */
  lemma SplitPairCell(a: string, b: string, parse: NumberParser)
    requires GEO_SEPARATOR !in a && GEO_SEPARATOR !in b
    requires parse(a).Number? && parse(b).Number?
    ensures PartCount(Some(a + [GEO_SEPARATOR] + b)) == 2
    ensures SplitCell(Some(a + [GEO_SEPARATOR] + b), parse) == Ok((Some(parse(a).value), Some(parse(b).value)))
  {
    SplitPair(a, b, GEO_SEPARATOR);
  }

  /** "40.7,-74.0" gives latitude 40.7 and longitude -74.0. */
  lemma SplitExample(parse: NumberParser)
    requires parse("40.7") == Number(40.7) && parse("-74.0") == Number(-74.0)
    ensures SplitCell(Some("40.7,-74.0"), parse) == Ok((Some(40.7), Some(-74.0)))
  {
    assert "40.7,-74.0" == "40.7" + [GEO_SEPARATOR] + "-74.0";
    SplitPairCell("40.7", "-74.0", parse);
  }

  /** Splits every row, failing at the first row that fails. */
  function SplitRows(df: seq<Record>, parse: NumberParser): (r: Result<seq<Record>, TransformError>)
    requires forall k :: 0 <= k < |df| ==> PartCount(df[k].geolocation) <= 2
    ensures r.Ok? ==> |r.value| == |df|
    ensures r.Ok? ==> forall k :: 0 <= k < |df| ==>
      && SplitCell(df[k].geolocation, parse) == Ok((r.value[k].latitude, r.value[k].longitude))
      && r.value[k] == df[k].(latitude := r.value[k].latitude, longitude := r.value[k].longitude)
    decreases |df|
  {
    if |df| == 0 then Ok([])
    else
      var last := df[|df| - 1];
      var front :- SplitRows(df[..|df| - 1], parse);
      var latLon :- SplitCell(last.geolocation, parse);
      Ok(front + [last.(latitude := latLon.0, longitude := latLon.1)])
  }

  /** Splitting the rows fails exactly when one row's cell fails. */
  lemma {:induction false} SplitRowsFails(df: seq<Record>, parse: NumberParser)
    requires forall k :: 0 <= k < |df| ==> PartCount(df[k].geolocation) <= 2
    ensures SplitRows(df, parse).Err? <==> exists k :: 0 <= k < |df| && SplitCell(df[k].geolocation, parse).Err?
    decreases |df|
  {
    if |df| > 0 {
      var front := df[..|df| - 1];
      assert forall k :: 0 <= k < |front| ==> front[k] == df[k];
      SplitRowsFails(front, parse);
    }
  }

  /** The first piece from position `i` on that `float()` cannot read. */
  function FirstUnreadableIn(parts: seq<string>, parse: NumberParser, i: nat): (r: Option<string>)
    requires i <= |parts|
    ensures r.Some? ==> parse(r.value).Unparseable?
    decreases |parts| - i
  {
    if i == |parts| then None
    else if parse(parts[i]).Unparseable? then Some(parts[i])
    else FirstUnreadableIn(parts, parse, i + 1)
  }

  /** The search finds nothing exactly when every piece from `i` on reads. */
  lemma {:induction false} FirstUnreadableInNone(parts: seq<string>, parse: NumberParser, i: nat)
    requires i <= |parts|
    ensures FirstUnreadableIn(parts, parse, i).None? <==>
      forall j :: i <= j < |parts| ==> !parse(parts[j]).Unparseable?
    decreases |parts| - i
  {
    if i < |parts| {
      FirstUnreadableInNone(parts, parse, i + 1);
    }
  }

  /** The first unreadable piece of one cell; a missing cell has none. */
  function UnreadablePiece(cell: Option<string>, parse: NumberParser): (r: Option<string>)
    ensures r.Some? ==> parse(r.value).Unparseable?
  {
    match cell
    case None => None
    case Some(text) => FirstUnreadableIn(Split(text, GEO_SEPARATOR), parse, 0)
  }

  /** A cell has an unreadable piece exactly when the search finds one. */
  lemma UnreadablePieceFound(cell: Option<string>, parse: NumberParser)
    ensures UnreadablePiece(cell, parse).Some? <==> HasUnreadablePiece(cell, parse)
  {
    if cell.Some? {
      FirstUnreadableInNone(Split(cell.value, GEO_SEPARATOR), parse, 0);
    }
  }

  /** The first unreadable piece, in row order, of the cells from row `i`
      on: the value `astype(float)` stops at. */
  function FirstUnreadable(cells: seq<Option<string>>, parse: NumberParser, i: nat): (r: Option<string>)
    requires i <= |cells|
    ensures r.Some? ==> parse(r.value).Unparseable?
    decreases |cells| - i
  {
    if i == |cells| then None
    else if UnreadablePiece(cells[i], parse).Some? then UnreadablePiece(cells[i], parse)
    else FirstUnreadable(cells, parse, i + 1)
  }

  /** The column search finds nothing exactly when no cell from row `i` on
      has an unreadable piece. */
  lemma {:induction false} FirstUnreadableNone(cells: seq<Option<string>>, parse: NumberParser, i: nat)
    requires i <= |cells|
    ensures FirstUnreadable(cells, parse, i).None? <==>
      forall k :: i <= k < |cells| ==> !HasUnreadablePiece(cells[k], parse)
    decreases |cells| - i
  {
    if i < |cells| {
      UnreadablePieceFound(cells[i], parse);
      FirstUnreadableNone(cells, parse, i + 1);
    }
  }

  /** The two-column float split of the geolocation column. The float
      conversion of every piece comes first and raises on an unreadable
      one; only then does the assignment to two columns raise unless the
      split gave exactly two. */
  function SplitGeolocation(df: seq<Record>, parse: NumberParser): (r: Result<seq<Record>, TransformError>)
    ensures Width(GeolocationColumn(df)) != 2 ==> r.Err?
    ensures r.Ok? ==> |r.value| == |df|
    ensures r.Ok? ==> forall k :: 0 <= k < |df| ==>
      && PartCount(df[k].geolocation) <= 2
      && SplitCell(df[k].geolocation, parse) == Ok((r.value[k].latitude, r.value[k].longitude))
      && r.value[k] == df[k].(latitude := r.value[k].latitude, longitude := r.value[k].longitude)
  {
    var cells := GeolocationColumn(df);
    match FirstUnreadable(cells, parse, 0)
    case Some(text) => Err(InvalidFloat(text))
    case None =>
      var w := Width(cells);
      if w != 2 then Err(GeolocationColumns(w)) else SplitRows(df, parse)
  }

  /** An unreadable piece anywhere in the column is reported as such, even
      when the split does not give two columns. */
  lemma UnreadableReportedFirst(df: seq<Record>, parse: NumberParser, k: nat)
    requires k < |df| && HasUnreadablePiece(df[k].geolocation, parse)
    ensures SplitGeolocation(df, parse).Err?
    ensures SplitGeolocation(df, parse).error.InvalidFloat?
    ensures parse(SplitGeolocation(df, parse).error.text).Unparseable?
  {
    var cells := GeolocationColumn(df);
    assert cells[k] == df[k].geolocation;
    FirstUnreadableNone(cells, parse, 0);
  }

  /** A cell with three or more pieces makes the whole split fail. */
  lemma TooManyPiecesFails(df: seq<Record>, parse: NumberParser, k: nat)
    requires k < |df| && PartCount(df[k].geolocation) > 2
    ensures SplitGeolocation(df, parse).Err?
  {
    assert GeolocationColumn(df)[k] == df[k].geolocation;
  }

  // ---------------------------------------------------------------------
  // The mileage interpolation.

  function MileageColumn(df: seq<Record>): Column
  {
    MapRows(df, (r: Record) => r.mileage)
  }

  /** Mileage gaps filled in place from the linear interpolation of the
      mileage column: the column becomes its interpolation and no other
      column changes. */
  function FillMileage(df: seq<Record>): (out: seq<Record>)
    ensures |out| == |df|
    ensures forall k :: 0 <= k < |df| ==> out[k] == df[k].(mileage := Interpolate(MileageColumn(df))[k])
  {
    var column := MileageColumn(df);
    var filled := FillNa(column, Interpolate(column));
    FillWithInterpolation(column);
    seq(|df|, k requires 0 <= k < |df| => df[k].(mileage := filled[k]))
  }

  // ---------------------------------------------------------------------
  // The whole transform.

  /** `transform_data`: the steps before the split (`Prepare`), the split,
      then the mileage fill. It fails only
      at the geolocation split; otherwise every row it returns has a vin
      and a parsed date, and it never adds rows. */
  function TransformData(raw: seq<RawRecord>, parse: NumberParser): (r: Result<seq<Record>, TransformError>)
    ensures r.Ok? ==> |r.value| <= |raw|
    ensures r.Ok? ==> forall k :: 0 <= k < |r.value| ==> r.value[k].vin.Some? && r.value[k].dateHour.Some?
  {
    var df := Prepare(raw, parse);
    PreparedRows(raw, parse);
    var df :- SplitGeolocation(df, parse);
    Ok(FillMileage(df))
  }

  /** The rows both filters let through, judged on the raw row: a vin is
      present and the `datehour` text reads as a date. */
  predicate Survives(r: RawRecord)
  {
    r.vin.Some? && DateTimes.Parse(DateHourText(r.datehour)).Some?
  }

  /** A surviving raw row after coercion and date parsing. */
  function PrepareRow(r: RawRecord, parse: NumberParser): Record
  {
    ParseDateRow(CoerceRow(r, parse))
  }

  /** The table the geolocation split receives: coercion, the vin filter,
      date parsing and the date filter, in the source's order. */
  function Prepare(raw: seq<RawRecord>, parse: NumberParser): seq<Record>
  {
    DropMissingDate(ParseDateColumn(DropMissingVin(CoerceNumericColumns(raw, parse))))
  }

  /** The steps before the split keep exactly the surviving rows, in their
      order, each coerced and date-parsed: the order of the two filters
      and of the column steps between them does not matter. */
  lemma PrepareKeepsSurvivors(raw: seq<RawRecord>, parse: NumberParser)
    ensures Prepare(raw, parse) == MapRows(Filter(raw, Survives), (r: RawRecord) => PrepareRow(r, parse))
  {
    var coerce := (r: RawRecord) => CoerceRow(r, parse);
    var prepare := (r: RawRecord) => PrepareRow(r, parse);
    var rawHasVin := (r: RawRecord) => r.vin.Some?;
    var rawHasDate := (r: RawRecord) => DateTimes.Parse(DateHourText(r.datehour)).Some?;
    FilterMap(raw, coerce, HasVin, rawHasVin);
    var withVin := Filter(raw, rawHasVin);
    MapMap(withVin, coerce, ParseDateRow, prepare);
    FilterMap(withVin, prepare, HasDateHour, rawHasDate);
    FilterFilter(raw, rawHasVin, rawHasDate, Survives);
  }

  /** Every row the split receives has a vin and a parsed date, and no
      row was added. */
  lemma PreparedRows(raw: seq<RawRecord>, parse: NumberParser)
    ensures |Prepare(raw, parse)| <= |raw|
    ensures forall k :: 0 <= k < |Prepare(raw, parse)| ==>
      Prepare(raw, parse)[k].vin.Some? && Prepare(raw, parse)[k].dateHour.Some?
  {
    PrepareKeepsSurvivors(raw, parse);
  }

  /** What a surviving raw row becomes in the output, apart from the
      mileage, which depends on its neighbours. */
  ghost predicate CleanedFrom(out: Record, r: RawRecord, parse: NumberParser)
  {
    && out.vin == r.vin && out.vin.Some?
    && out.company == r.company
    && out.geolocation == r.geolocation
    && out.enginestatus == r.enginestatus
    && out.chargingpower == CoerceNumeric(r.chargingpower, parse)
    && out.remainingelectricalrange == CoerceNumeric(r.remainingelectricalrange, parse)
    && out.speed == CoerceNumeric(r.speed, parse)
    && out.datehour == Some(DateHourText(r.datehour))
    && out.dateHour == DateTimes.Parse(DateHourText(r.datehour)) && out.dateHour.Some?
    && PartCount(r.geolocation) <= 2
    && SplitCell(r.geolocation, parse) == Ok((out.latitude, out.longitude))
  }

  /** One surviving row through the split and the fill. */
  lemma CleanedRow(r: RawRecord, prepared: Record, out: Record, parse: NumberParser, mileage: Option<real>)
    requires Survives(r)
    requires prepared == PrepareRow(r, parse)
    requires PartCount(prepared.geolocation) <= 2
    requires SplitCell(prepared.geolocation, parse) == Ok((out.latitude, out.longitude))
    requires out == prepared.(latitude := out.latitude, longitude := out.longitude, mileage := mileage)
    ensures CleanedFrom(out, r, parse) && out.mileage == mileage
  {
  }

  /** A successful transform is the split of the prepared table with its
      mileage filled. */
  lemma TransformUnfolds(raw: seq<RawRecord>, parse: NumberParser)
    ensures var split := SplitGeolocation(Prepare(raw, parse), parse);
      TransformData(raw, parse) == if split.Ok? then Ok(FillMileage(split.value)) else Err(split.error)
  {
  }

  /** The split followed by the fill changes each row in its latitude,
      longitude and mileage only. */
  lemma SplitThenFill(df: seq<Record>, parse: NumberParser)
    requires SplitGeolocation(df, parse).Ok?
    ensures var out := FillMileage(SplitGeolocation(df, parse).value);
      && |out| == |df|
      && forall k :: 0 <= k < |df| ==>
           && PartCount(df[k].geolocation) <= 2
           && SplitCell(df[k].geolocation, parse) == Ok((out[k].latitude, out[k].longitude))
           && out[k] == df[k].(latitude := out[k].latitude, longitude := out[k].longitude,
                               mileage := Interpolate(MileageColumn(df))[k])
  {
    var split := SplitGeolocation(df, parse).value;
    assert MileageColumn(split) == MileageColumn(df);
  }

  /** The columns the split and the fill read, taken from the prepared
      table, are those of the surviving raw rows. */
  lemma PreparedColumns(raw: seq<RawRecord>, parse: NumberParser)
    ensures var kept := Filter(raw, Survives);
      && MileageColumn(Prepare(raw, parse)) == MapRows(kept, (r: RawRecord) => CoerceNumeric(r.mileage, parse))
      && GeolocationColumn(Prepare(raw, parse)) == MapRows(kept, (r: RawRecord) => r.geolocation)
  {
    PrepareKeepsSurvivors(raw, parse);
  }

  /** A successful transform returns one row per surviving input row, in
      input order: the k-th output row is the k-th survivor, cleaned, with
      the k-th entry of the interpolated mileage of the survivors. */
  lemma TransformKeepsSurvivors(raw: seq<RawRecord>, parse: NumberParser)
    ensures TransformData(raw, parse).Ok? ==>
      var out, kept := TransformData(raw, parse).value, Filter(raw, Survives);
      && |out| == |kept|
      && (forall k :: 0 <= k < |out| ==> CleanedFrom(out[k], kept[k], parse))
      && (forall k :: 0 <= k < |out| ==>
            out[k].mileage == Interpolate(MapRows(kept, (r: RawRecord) => CoerceNumeric(r.mileage, parse)))[k])
  {
    if TransformData(raw, parse).Ok? {
      var kept := Filter(raw, Survives);
      var prepared := Prepare(raw, parse);
      var mileages := MapRows(kept, (r: RawRecord) => CoerceNumeric(r.mileage, parse));
      assert SplitGeolocation(prepared, parse).Ok? by {
        TransformUnfolds(raw, parse);
      }
      var out := FillMileage(SplitGeolocation(prepared, parse).value);
      assert TransformData(raw, parse).value == out by {
        TransformUnfolds(raw, parse);
      }
      assert prepared == MapRows(kept, (r: RawRecord) => PrepareRow(r, parse)) by {
        PrepareKeepsSurvivors(raw, parse);
      }
      assert MileageColumn(prepared) == mileages by {
        PreparedColumns(raw, parse);
      }
      SplitThenFill(prepared, parse);
      forall k | 0 <= k < |out|
        ensures CleanedFrom(out[k], kept[k], parse)
        ensures out[k].mileage == Interpolate(mileages)[k]
      {
        CleanedRow(kept[k], prepared[k], out[k], parse, Interpolate(mileages)[k]);
      }
    }
  }

  /** The split fails exactly when the geolocation column does not split
      into two columns or one of its cells has an unreadable piece. */
  lemma SplitGeolocationFails(df: seq<Record>, parse: NumberParser)
    ensures var cells := GeolocationColumn(df);
      SplitGeolocation(df, parse).Err? <==>
        Width(cells) != 2 || exists k :: 0 <= k < |cells| && HasUnreadablePiece(cells[k], parse)
  {
    var cells := GeolocationColumn(df);
    FirstUnreadableNone(cells, parse, 0);
    if Width(cells) == 2 && FirstUnreadable(cells, parse, 0).None? {
      SplitRowsFails(df, parse);
      forall k | 0 <= k < |cells|
        ensures !SplitCell(df[k].geolocation, parse).Err?
      {
        assert cells[k] == df[k].geolocation;
        SplitCellFails(cells[k], parse);
      }
    }
  }

  /** The transform fails exactly when the split of the surviving rows'
      geolocations does not give two columns or has an unreadable piece. */
  lemma TransformFails(raw: seq<RawRecord>, parse: NumberParser)
    ensures var cells := MapRows(Filter(raw, Survives), (r: RawRecord) => r.geolocation);
      TransformData(raw, parse).Err? <==>
        Width(cells) != 2 || exists k :: 0 <= k < |cells| && HasUnreadablePiece(cells[k], parse)
  {
    var prepared := Prepare(raw, parse);
    assert TransformData(raw, parse).Err? <==> SplitGeolocation(prepared, parse).Err? by {
      TransformUnfolds(raw, parse);
    }
    assert GeolocationColumn(prepared) == MapRows(Filter(raw, Survives), (r: RawRecord) => r.geolocation) by {
      PreparedColumns(raw, parse);
    }
    SplitGeolocationFails(prepared, parse);
  }
}
