/** The `/load-data` wiring: the table `transform_data` returns is the
    table `load_data` loads. */
module Pipeline {
  import opened Cells
  import opened Text
  import opened DateTimes
  import opened Tables
  import opened TransformVehicleCsv
  import opened LoadVehicleCsv

  /** The table `transform_data` returns is loaded with one sample per
      surviving raw row, each dated with the row's parsed date-time. */
  lemma LoadTransformed(raw: seq<RawRecord>, parse: NumberParser, vins: seq<Vin>)
    ensures TransformData(raw, parse).Ok? ==>
      var out := TransformData(raw, parse).value;
      && AllVinsPresent(out)
      && |SamplesAfter(vins, out, |out|)| == |Filter(raw, Survives)|
      && forall k :: 0 <= k < |out| ==>
           SamplesAfter(vins, out, |out|)[k].dateHour == out[k].dateHour.value
  {
    if TransformData(raw, parse).Ok? {
      var out := TransformData(raw, parse).value;
      TransformKeepsSurvivors(raw, parse);
      SamplesAfterRows(vins, out, |out|);
    }
  }

  // ---------------------------------------------------------------------
  // Three rows of one vehicle: one with a date-time in another layout,
  // one with a negative speed and one well-formed row.

  const WHEN: string := "25/12/2023 14:30:00"
  const WHERE: string := "40.7,-74.0"

  function ExampleRow(datehour: string, speed: string): RawRecord
  {
    RawRecord(
      vin := Some("V1"),
      company := Some("ACME"),
      datehour := Some(datehour),
      geolocation := Some(WHERE),
      mileage := None,
      chargingpower := None,
      remainingelectricalrange := None,
      enginestatus := Some("on"),
      speed := Some(speed))
  }

  const EXAMPLE: seq<RawRecord> := [
    ExampleRow("2023-12-25 14:30", "4"),
    ExampleRow(WHEN, "-5"),
    ExampleRow(WHEN, "3")
  ]

  /** What the number reader makes of the texts of the example. */
  predicate ReadsExample(parse: NumberParser)
  {
    && parse("40.7") == Number(40.7) && parse("-74.0") == Number(-74.0)
    && parse("-5") == Number(-5.0) && parse("3") == Number(3.0)
  }

  lemma ShowExampleDigits()
    ensures ShowDigits(25, 2) == "25" && ShowDigits(12, 2) == "12"
    ensures ShowDigits(14, 2) == "14" && ShowDigits(30, 2) == "30"
  {
    assert ShowDigits(2, 1) == "2";
    assert ShowDigits(1, 1) == "1";
    assert ShowDigits(3, 1) == "3";
  }

  /** The example's date-time written with the pattern. */
  lemma ExampleFormat()
    ensures Format(DateTime(2023, 12, 25, 14, 30, 0)) == WHEN
  {
    ShowExampleDigits();
    ShowSmallDigits();
    ShowYears();
    assert Format(DateTime(2023, 12, 25, 14, 30, 0)) == Layout("25", "12", "2023", "14", "30", "00");
  }

  /** The example's date-time is read. */
  lemma ExampleDate()
    ensures DateTimes.Parse(WHEN) == Some(DateTime(2023, 12, 25, 14, 30, 0))
  {
    var d := DateTime(2023, 12, 25, 14, 30, 0);
    ExampleFormat();
    assert ValidDateTime(d);
    ParseFormat(d);
  }

  /** Only the two rows with a readable date-time survive. */
  lemma ExampleSurvivors()
    ensures Filter(EXAMPLE, Survives) == [EXAMPLE[1], EXAMPLE[2]]
  {
    ExampleDate();
    assert !Survives(EXAMPLE[0]);
    assert Survives(EXAMPLE[1]) && Survives(EXAMPLE[2]);
    assert EXAMPLE[..2][..1] == [EXAMPLE[0]];
    assert EXAMPLE[..1][..0] == [];
    assert Filter(EXAMPLE[..1], Survives) == [];
    assert Filter(EXAMPLE[..2], Survives) == [EXAMPLE[1]];
  }

  /** Both pieces of the example's geolocation are read: latitude 40.7,
      longitude -74.0. */
  lemma ExampleWhere(parse: NumberParser)
    requires ReadsExample(parse)
    ensures PartCount(Some(WHERE)) == 2
    ensures !HasUnreadablePiece(Some(WHERE), parse)
  {
    assert WHERE == "40.7" + [GEO_SEPARATOR] + "-74.0";
    SplitPairCell("40.7", "-74.0", parse);
    SplitCellFails(Some(WHERE), parse);
  }

  /** Each surviving row of the example has the example's geolocation. */
  lemma ExampleCells()
    ensures var cells := MapRows(Filter(EXAMPLE, Survives), (r: RawRecord) => r.geolocation);
      |cells| == 2 && forall k :: 0 <= k < |cells| ==> cells[k] == Some(WHERE)
  {
    ExampleSurvivors();
  }

  /** The transform of the example succeeds: both surviving rows split
      into two readable pieces. */
  lemma ExampleSucceeds(parse: NumberParser)
    requires ReadsExample(parse)
    ensures TransformData(EXAMPLE, parse).Ok?
  {
    var cells := MapRows(Filter(EXAMPLE, Survives), (r: RawRecord) => r.geolocation);
    ExampleCells();
    ExampleWhere(parse);
    assert Width(cells) == 2 by {
      WidthReached(cells);
    }
    TransformFails(EXAMPLE, parse);
  }

  /** The transform keeps the two dated rows, with their speeds. */
  lemma ExampleTransform(parse: NumberParser)
    requires ReadsExample(parse)
    ensures TransformData(EXAMPLE, parse).Ok?
    ensures var out := TransformData(EXAMPLE, parse).value;
      && |out| == 2
      && out[0].vin == Some("V1") && out[1].vin == Some("V1")
      && out[0].speed == Some(-5.0) && out[1].speed == Some(3.0)
  {
    ExampleSucceeds(parse);
    ExampleSurvivors();
    TransformKeepsSurvivors(EXAMPLE, parse);
    var out := TransformData(EXAMPLE, parse).value;
    assert CleanedFrom(out[0], EXAMPLE[1], parse) && CleanedFrom(out[1], EXAMPLE[2], parse);
  }

  /** Loading the transformed example into an empty store creates one
      vehicle and two samples, the first with its negative speed stored
      as 0. */
  lemma ExampleLoad(parse: NumberParser)
    requires ReadsExample(parse)
    ensures TransformData(EXAMPLE, parse).Ok?
    ensures var out := TransformData(EXAMPLE, parse).value;
      && AllVinsPresent(out)
      && VinsAfter([], out, |out|) == [Vin(1, "V1")]
      && |SamplesAfter([], out, |out|)| == 2
      && SamplesAfter([], out, |out|)[0].vinId == 1 && SamplesAfter([], out, |out|)[1].vinId == 1
      && SamplesAfter([], out, |out|)[0].speed == 0.0 && SamplesAfter([], out, |out|)[1].speed == 3.0
  {
    ExampleTransform(parse);
    var out := TransformData(EXAMPLE, parse).value;
    assert VinsAfter([], out, 1) == [Vin(1, "V1")];
    assert Lookup([Vin(1, "V1")], "V1") == Some(Vin(1, "V1"));
    assert VinsAfter([], out, 2) == [Vin(1, "V1")];
    SamplesAfterRows([], out, 2);
  }
}
