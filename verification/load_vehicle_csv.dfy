/** The loader `load_data`: walks the cleaned table row by row against a
    store of vehicles (`Vin`, unique by vin text) and samples
    (`VehicleData`, each referring to a vehicle by id). Per row it looks up
    or creates the vehicle, fills missing cells with 0, clamps negative
    speed and charging power, normalises the engine status and appends one
    sample. */
module LoadVehicleCsv {
  import opened Cells
  import opened Text
  import opened DateTimes
  import opened Tables

  /** A row of the `vins` relation. */
  datatype Vin = Vin(id: nat, vin: string)

  /** A row of the `vehicle_data` relation, as the loader writes it. */
  datatype Sample = Sample(
    vinId: nat,
    company: string,
    dateHour: DateTime,
    chargingPower: real,
    remainingElectricalRange: real,
    engineStatus: string,
    latitude: real,
    longitude: real,
    mileage: real,
    speed: real)

  const ENGINE_ON: string := "ON"
  const ENGINE_OFF: string := "OFF"

  // ---------------------------------------------------------------------
  // One row: `fillna(0)`, the date conversion, the clamps and the engine
  // status.

  /** A text cell after `fillna(0)`: a missing cell holds the number 0,
      which a text column stores, and `str()` writes, as "0". */
  function FillText(cell: Option<string>): string
  {
    cell.GetOr("0")
  }

  /** `date_hour` after `fillna(0)` and `to_datetime`: a missing date-time
      becomes the number 0, which converts to the Unix epoch. */
  function FillDate(cell: Option<DateTime>): DateTime
  {
    cell.GetOr(EPOCH)
  }

  /** A number after `fillna(0)`, with negative values reset to 0. */
  function ClampNonNegative(cell: Option<real>): (x: real)
    ensures x >= 0.0
    ensures cell.Some? && cell.value >= 0.0 ==> x == cell.value
    ensures cell.None? || cell.value < 0.0 ==> x == 0.0
  {
    var x := cell.GetOr(0.0);
    if x < 0.0 then 0.0 else x
  }

  /** The engine status rule: "ON" when the upper-cased text contains
      "ON" or the digit 1, "OFF" otherwise. A missing status reads as "0". */
  function NormalizeEngineStatus(cell: Option<string>): (status: string)
    ensures status == ENGINE_ON || status == ENGINE_OFF
  {
    var text := Upper(FillText(cell));
    if HasInfix(text, "ON") || HasInfix(text, "1") then ENGINE_ON else ENGINE_OFF
  }

  /** The status is "ON" exactly when "ON" or "1" occurs somewhere in the
      upper-cased text. */
  lemma EngineStatusRule(cell: Option<string>)
    ensures NormalizeEngineStatus(cell) == ENGINE_ON <==>
      (exists i :: OccursAt(Upper(FillText(cell)), "ON", i)) || (exists i :: OccursAt(Upper(FillText(cell)), "1", i))
  {
    var text := Upper(FillText(cell));
    HasInfixOccurs(text, "ON");
    HasInfixOccurs(text, "1");
  }

  /** "on", "10" and "NONE" are on ... */
  lemma EngineOnExamples()
    ensures NormalizeEngineStatus(Some("on")) == ENGINE_ON
    ensures NormalizeEngineStatus(Some("10")) == ENGINE_ON
    ensures NormalizeEngineStatus(Some("NONE")) == ENGINE_ON
  {
    assert Upper("on") == "ON";
    assert OccursAt(Upper("on"), "ON", 0);
    EngineStatusRule(Some("on"));
    assert OccursAt(Upper("10"), "1", 0);
    EngineStatusRule(Some("10"));
    assert OccursAt(Upper("NONE"), "ON", 1);
    EngineStatusRule(Some("NONE"));
  }

  /** ... while "off", "", "xyz" and a missing status are off. */
  lemma EngineOffExamples()
    ensures NormalizeEngineStatus(Some("off")) == ENGINE_OFF
    ensures NormalizeEngineStatus(Some("")) == ENGINE_OFF
    ensures NormalizeEngineStatus(Some("xyz")) == ENGINE_OFF
    ensures NormalizeEngineStatus(None) == ENGINE_OFF
  {
    assert Upper("off") == "OFF" by {
      assert FillText(Some("off")) == "off";
    }
    NeverOccurs("OFF", "ON");
    NeverOccurs("OFF", "1");
    EngineStatusRule(Some("off"));
    NeverOccurs("", "ON");
    NeverOccurs("", "1");
    EngineStatusRule(Some(""));
    assert Upper("xyz") == "XYZ";
    NeverOccurs("XYZ", "ON");
    NeverOccurs("XYZ", "1");
    EngineStatusRule(Some("xyz"));
    assert Upper("0") == "0";
    NeverOccurs("0", "ON");
    NeverOccurs("0", "1");
    EngineStatusRule(None);
  }

  /** A word occurs only in a text holding its last character. */
  lemma NeverOccurs(s: string, w: string)
    requires |w| > 0
    ensures (exists i :: OccursAt(s, w, i)) ==> w[|w| - 1] in s
  {
    if exists i :: OccursAt(s, w, i) {
      var i :| OccursAt(s, w, i);
      assert s[i + |w| - 1] == w[|w| - 1];
    }
  }

  /** The sample written for one row of the cleaned table, referring to
      the vehicle `vinId`. */
  function ToSample(vinId: nat, row: Record): (s: Sample)
    ensures s.vinId == vinId
    ensures s.speed >= 0.0 && s.chargingPower >= 0.0
    ensures s.engineStatus == ENGINE_ON || s.engineStatus == ENGINE_OFF
  {
    Sample(
      vinId := vinId,
      company := FillText(row.company),
      dateHour := FillDate(row.dateHour),
      chargingPower := ClampNonNegative(row.chargingpower),
      remainingElectricalRange := row.remainingelectricalrange.GetOr(0.0),
      engineStatus := NormalizeEngineStatus(row.enginestatus),
      latitude := row.latitude.GetOr(0.0),
      longitude := row.longitude.GetOr(0.0),
      mileage := row.mileage.GetOr(0.0),
      speed := ClampNonNegative(row.speed))
  }

  /** Every missing cell is written as 0 (or "0", or the epoch), never as
      null, and every present cell is written as it is, apart from the
      clamps and the engine status. */
  lemma MissingBecomesZero(vinId: nat, row: Record)
    ensures var s := ToSample(vinId, row);
      && (row.company.None? ==> s.company == "0")
      && (row.company.Some? ==> s.company == row.company.value)
      && (row.dateHour.None? ==> s.dateHour == EPOCH)
      && (row.dateHour.Some? ==> s.dateHour == row.dateHour.value)
      && (row.remainingelectricalrange.None? ==> s.remainingElectricalRange == 0.0)
      && (row.remainingelectricalrange.Some? ==> s.remainingElectricalRange == row.remainingelectricalrange.value)
      && (row.latitude.None? ==> s.latitude == 0.0)
      && (row.latitude.Some? ==> s.latitude == row.latitude.value)
      && (row.longitude.None? ==> s.longitude == 0.0)
      && (row.longitude.Some? ==> s.longitude == row.longitude.value)
      && (row.mileage.None? ==> s.mileage == 0.0)
      && (row.mileage.Some? ==> s.mileage == row.mileage.value)
      && (row.speed.None? ==> s.speed == 0.0)
      && (row.chargingpower.None? ==> s.chargingPower == 0.0)
      && (row.enginestatus.None? ==> s.engineStatus == ENGINE_OFF)
  {
    EngineOffExamples();
  }

  // ---------------------------------------------------------------------
  // The vehicle relation.

  /** The query for the first vehicle whose vin text is `v`, as the
      loader asks the session for each row. */
  function Lookup(vins: seq<Vin>, v: string): (r: Option<Vin>)
    ensures r.Some? ==> r.value.vin == v
  {
    LookupFrom(vins, v, 0)
  }

  /** The first vehicle with vin text `v` at position `i` or later. */
  function LookupFrom(vins: seq<Vin>, v: string, i: nat): (r: Option<Vin>)
    requires i <= |vins|
    ensures r.Some? ==> r.value.vin == v
    decreases |vins| - i
  {
    if i == |vins| then None
    else if vins[i].vin == v then Some(vins[i])
    else LookupFrom(vins, v, i + 1)
  }

  /** The id the database gives a new vehicle: one more than the largest
      id in use, and 1 in an empty relation. */
  function NextId(vins: seq<Vin>): (n: nat)
    ensures n >= 1
    decreases |vins|
  {
    if |vins| == 0 then 1
    else
      var n := NextId(vins[..|vins| - 1]);
      var last := vins[|vins| - 1].id + 1;
      if last > n then last else n
  }

  /** The new id is larger than every id in use, and is one more than one
      of them unless the relation is empty. */
  lemma {:induction false} NextIdAbove(vins: seq<Vin>)
    ensures forall k :: 0 <= k < |vins| ==> vins[k].id < NextId(vins)
    ensures |vins| > 0 ==> exists k :: 0 <= k < |vins| && vins[k].id + 1 == NextId(vins)
    ensures |vins| == 0 ==> NextId(vins) == 1
    decreases |vins|
  {
    if |vins| > 0 {
      var front := vins[..|vins| - 1];
      NextIdAbove(front);
      assert forall k :: 0 <= k < |front| ==> front[k] == vins[k];
    }
  }

  /** The vin column is unique. */
  ghost predicate UniqueVins(vins: seq<Vin>)
  {
    forall i, j :: 0 <= i < j < |vins| ==> vins[i].vin != vins[j].vin
  }

  /** The id column is a key. */
  ghost predicate DistinctIds(vins: seq<Vin>)
  {
    forall i, j :: 0 <= i < j < |vins| ==> vins[i].id != vins[j].id
  }

  function Ids(vins: seq<Vin>): set<nat>
  {
    set k | 0 <= k < |vins| :: vins[k].id
  }

  /** Every sample refers to a vehicle that exists. */
  ghost predicate ForeignKeysHold(vins: seq<Vin>, samples: seq<Sample>)
  {
    forall k :: 0 <= k < |samples| ==> samples[k].vinId in Ids(vins)
  }

  /** The vehicles after looking up `v`, creating it when it is missing. */
  function WithVin(vins: seq<Vin>, v: string): (r: seq<Vin>)
    ensures vins <= r && |r| <= |vins| + 1
  {
    if Lookup(vins, v).Some? then vins else vins + [Vin(NextId(vins), v)]
  }

  /** After looking up `v`, creating it when missing, `v` finds a
      vehicle: the one it found before, or the one just created. */
  lemma WithVinFinds(vins: seq<Vin>, v: string)
    ensures Lookup(WithVin(vins, v), v) ==
      if Lookup(vins, v).Some? then Lookup(vins, v) else Some(Vin(NextId(vins), v))
  {
    if Lookup(vins, v).None? {
      LookupAppend(vins, v, Vin(NextId(vins), v));
    }
  }

  /** Appending vehicles never changes which vehicle a present vin
      finds, and an absent vin finds what it finds among the appended ones. */
  lemma {:induction false} LookupFromExtend(vins: seq<Vin>, more: seq<Vin>, v: string, i: nat)
    requires i <= |vins|
    ensures LookupFrom(vins + more, v, i) ==
      if LookupFrom(vins, v, i).Some? then LookupFrom(vins, v, i) else LookupFrom(vins + more, v, |vins|)
    decreases |vins| - i
  {
    if i < |vins| {
      assert (vins + more)[i] == vins[i];
      LookupFromExtend(vins, more, v, i + 1);
    }
  }

  /** A vehicle absent from the relation is found once appended. */
  lemma LookupAppend(vins: seq<Vin>, v: string, x: Vin)
    requires Lookup(vins, v).None? && x.vin == v
    ensures Lookup(vins + [x], v) == Some(x)
  {
    LookupFromExtend(vins, [x], v, 0);
    assert (vins + [x])[|vins|] == x;
  }

  /** Appending vehicles never changes which vehicle a present vin finds. */
  lemma LookupExtend(vins: seq<Vin>, more: seq<Vin>, v: string)
    requires Lookup(vins, v).Some?
    ensures Lookup(vins + more, v) == Lookup(vins, v)
  {
    LookupFromExtend(vins, more, v, 0);
  }

  /** Where the vehicle a vin finds sits in the relation: at the first
      position, from `i` on, that holds the vin. */
  lemma {:induction false} LookupIndex(vins: seq<Vin>, v: string, i: nat) returns (j: nat)
    requires i <= |vins| && LookupFrom(vins, v, i).Some?
    ensures i <= j < |vins| && vins[j] == LookupFrom(vins, v, i).value
    ensures forall t :: i <= t < j ==> vins[t].vin != v
    decreases |vins| - i
  {
    if vins[i].vin == v {
      j := i;
    } else {
      j := LookupIndex(vins, v, i + 1);
    }
  }

  /** The scan finds nothing exactly when no vehicle from `i` on holds
      the vin. */
  lemma {:induction false} LookupFromNone(vins: seq<Vin>, v: string, i: nat)
    requires i <= |vins|
    ensures LookupFrom(vins, v, i).None? <==> forall k :: i <= k < |vins| ==> vins[k].vin != v
    decreases |vins| - i
  {
    if i < |vins| {
      LookupFromNone(vins, v, i + 1);
    }
  }

  /** `Lookup` is `first()`: it finds a vehicle exactly when one holds the
      vin, and then the first one that does. */
  lemma LookupFirst(vins: seq<Vin>, v: string)
    ensures Lookup(vins, v).None? <==> forall k :: 0 <= k < |vins| ==> vins[k].vin != v
    ensures Lookup(vins, v).Some? ==>
      exists j :: 0 <= j < |vins| && vins[j] == Lookup(vins, v).value && forall t :: 0 <= t < j ==> vins[t].vin != v
  {
    LookupFromNone(vins, v, 0);
    if Lookup(vins, v).Some? {
      var j := LookupIndex(vins, v, 0);
    }
  }

  /** Adding a vehicle keeps the vin column unique and the ids distinct. */
  lemma WithVinKeepsKeys(vins: seq<Vin>, v: string)
    requires UniqueVins(vins) && DistinctIds(vins)
    ensures UniqueVins(WithVin(vins, v)) && DistinctIds(WithVin(vins, v))
    ensures Ids(vins) <= Ids(WithVin(vins, v))
  {
    var r := WithVin(vins, v);
    if Lookup(vins, v).None? {
      LookupFromNone(vins, v, 0);
      NextIdAbove(vins);
      var x := Vin(NextId(vins), v);
      assert r == vins + [x];
      forall k | 0 <= k < |vins|
        ensures r[k] == vins[k] && vins[k].id != x.id && vins[k].vin != v
      {
      }
    }
  }

  /** Every row has a vin, as every row of the cleaned table does. */
  predicate AllVinsPresent(rows: seq<Record>)
  {
    forall k :: 0 <= k < |rows| ==> rows[k].vin.Some?
  }

  /** The vehicles after loading the first `n` rows into a store holding
      `vins`. */
  function VinsAfter(vins: seq<Vin>, rows: seq<Record>, n: nat): seq<Vin>
    requires AllVinsPresent(rows) && n <= |rows|
    decreases n
  {
    if n == 0 then vins
    else WithVin(VinsAfter(vins, rows, n - 1), rows[n - 1].vin.value)
  }

  /** The ids of the vehicles the first `n` rows refer to, each found or
      created when its row is loaded. */
  function VinIdsAfter(vins: seq<Vin>, rows: seq<Record>, n: nat): (ids: seq<nat>)
    requires AllVinsPresent(rows) && n <= |rows|
    ensures |ids| == n
    decreases n
  {
    if n == 0 then []
    else
      var v := rows[n - 1].vin.value;
      WithVinFinds(VinsAfter(vins, rows, n - 1), v);
      VinIdsAfter(vins, rows, n - 1) + [Lookup(VinsAfter(vins, rows, n), v).value.id]
  }

  /** The samples appended by loading the first `n` rows into a store
      holding `vins`: one per row, in row order, referring to the
      vehicle found or created for it. */
  function SamplesAfter(vins: seq<Vin>, rows: seq<Record>, n: nat): (r: seq<Sample>)
    requires AllVinsPresent(rows) && n <= |rows|
    ensures |r| == n
  {
    var ids := VinIdsAfter(vins, rows, n);
    seq(n, k requires 0 <= k < n => ToSample(ids[k], rows[k]))
  }

  /** One more row appends one sample. */
  lemma SamplesAfterStep(vins: seq<Vin>, rows: seq<Record>, i: nat)
    requires AllVinsPresent(rows) && i < |rows|
    ensures var v := rows[i].vin.value;
      && Lookup(VinsAfter(vins, rows, i + 1), v).Some?
      && SamplesAfter(vins, rows, i + 1) ==
           SamplesAfter(vins, rows, i) + [ToSample(Lookup(VinsAfter(vins, rows, i + 1), v).value.id, rows[i])]
  {
    WithVinFinds(VinsAfter(vins, rows, i), rows[i].vin.value);
    var ids := VinIdsAfter(vins, rows, i + 1);
    assert ids[..i] == VinIdsAfter(vins, rows, i);
  }

  /** Loading more rows only appends vehicles: the relation after `m` rows
      is a prefix of the relation after `n >= m` rows, and in particular
      loading never changes or removes a vehicle that was already there. */
  lemma {:induction false} VinsAfterPrefix(vins: seq<Vin>, rows: seq<Record>, m: nat, n: nat)
    requires AllVinsPresent(rows) && m <= n <= |rows|
    ensures VinsAfter(vins, rows, m) <= VinsAfter(vins, rows, n)
    decreases n
  {
    if m < n {
      VinsAfterPrefix(vins, rows, m, n - 1);
    }
  }

  /** A vin that finds a vehicle after `m` rows finds the same one after
      any later row. */
  lemma LookupStable(vins: seq<Vin>, rows: seq<Record>, m: nat, n: nat, v: string)
    requires AllVinsPresent(rows) && m <= n <= |rows|
    requires Lookup(VinsAfter(vins, rows, m), v).Some?
    ensures Lookup(VinsAfter(vins, rows, n), v) == Lookup(VinsAfter(vins, rows, m), v)
  {
    var before, after := VinsAfter(vins, rows, m), VinsAfter(vins, rows, n);
    VinsAfterPrefix(vins, rows, m, n);
    assert after == before + after[|before|..];
    LookupExtend(before, after[|before|..], v);
  }

  /** Loading keeps the vin column unique and the ids distinct. */
  lemma {:induction false} VinsAfterKeepsKeys(vins: seq<Vin>, rows: seq<Record>, n: nat)
    requires AllVinsPresent(rows) && n <= |rows|
    requires UniqueVins(vins) && DistinctIds(vins)
    ensures UniqueVins(VinsAfter(vins, rows, n)) && DistinctIds(VinsAfter(vins, rows, n))
    ensures Ids(vins) <= Ids(VinsAfter(vins, rows, n))
    decreases n
  {
    if n > 0 {
      VinsAfterKeepsKeys(vins, rows, n - 1);
      WithVinKeepsKeys(VinsAfter(vins, rows, n - 1), rows[n - 1].vin.value);
    }
  }

  /** After loading `n` rows, each of their vins has a vehicle. */
  lemma VinsAfterCovers(vins: seq<Vin>, rows: seq<Record>, n: nat)
    requires AllVinsPresent(rows) && n <= |rows|
    ensures forall k :: 0 <= k < n ==> Lookup(VinsAfter(vins, rows, n), rows[k].vin.value).Some?
  {
    forall k | 0 <= k < n
      ensures Lookup(VinsAfter(vins, rows, n), rows[k].vin.value).Some?
    {
      RowVinFound(vins, rows, n, k);
    }
  }

  /** Row `k`'s vin finds a vehicle once `n > k` rows are loaded. */
  lemma RowVinFound(vins: seq<Vin>, rows: seq<Record>, n: nat, k: nat)
    requires AllVinsPresent(rows) && k < n <= |rows|
    ensures Lookup(VinsAfter(vins, rows, n), rows[k].vin.value).Some?
  {
    WithVinFinds(VinsAfter(vins, rows, k), rows[k].vin.value);
    LookupStable(vins, rows, k + 1, n, rows[k].vin.value);
  }

  /** A vehicle already in the store is reused: its vin finds the same
      vehicle after loading. */
  lemma ExistingVinReused(vins: seq<Vin>, rows: seq<Record>, v: string)
    requires AllVinsPresent(rows) && Lookup(vins, v).Some?
    ensures Lookup(VinsAfter(vins, rows, |rows|), v) == Lookup(vins, v)
  {
    LookupStable(vins, rows, 0, |rows|, v);
  }

  /** Every vehicle the load creates comes from a row. */
  lemma {:induction false} VinsAfterFromRows(vins: seq<Vin>, rows: seq<Record>, n: nat)
    requires AllVinsPresent(rows) && n <= |rows|
    ensures forall i :: |vins| <= i < |VinsAfter(vins, rows, n)| ==>
      exists k :: 0 <= k < n && rows[k].vin == Some(VinsAfter(vins, rows, n)[i].vin)
    decreases n
  {
    if n > 0 {
      var before := VinsAfter(vins, rows, n - 1);
      var after := VinsAfter(vins, rows, n);
      VinsAfterFromRows(vins, rows, n - 1);
      forall i | |vins| <= i < |after|
        ensures exists k :: 0 <= k < n && rows[k].vin == Some(after[i].vin)
      {
        if i < |before| {
          assert after[i] == before[i];
        } else {
          assert Lookup(before, rows[n - 1].vin.value).None?;
          assert after == before + [Vin(NextId(before), rows[n - 1].vin.value)];
          assert rows[n - 1].vin == Some(after[i].vin);
        }
      }
    } else {
      assert VinsAfter(vins, rows, n) == vins;
    }
  }

  /** After loading into a store with a unique vin column, each distinct
      vin of the input has exactly one vehicle, however many rows share it. */
  lemma ExactlyOneVinPerVin(vins: seq<Vin>, rows: seq<Record>, k: nat)
    requires AllVinsPresent(rows) && UniqueVins(vins) && DistinctIds(vins)
    requires k < |rows|
    ensures var after, v := VinsAfter(vins, rows, |rows|), rows[k].vin.value;
      exists i :: 0 <= i < |after| && after[i].vin == v && forall j :: 0 <= j < |after| && after[j].vin == v ==> j == i
  {
    var after, v := VinsAfter(vins, rows, |rows|), rows[k].vin.value;
    VinsAfterCovers(vins, rows, |rows|);
    VinsAfterKeepsKeys(vins, rows, |rows|);
    var i := LookupIndex(after, v, 0);
    assert forall j :: 0 <= j < |after| && after[j].vin == v ==> j == i;
  }

  /** Row `k` refers to the vehicle its vin finds once `n > k` rows are
      loaded. */
  lemma {:induction false} VinIdOfRow(vins: seq<Vin>, rows: seq<Record>, n: nat, k: nat)
    requires AllVinsPresent(rows) && k < n <= |rows|
    ensures var after, v := VinsAfter(vins, rows, n), rows[k].vin.value;
      && Lookup(after, v).Some?
      && VinIdsAfter(vins, rows, n)[k] == Lookup(after, v).value.id
    decreases n
  {
    WithVinFinds(VinsAfter(vins, rows, n - 1), rows[n - 1].vin.value);
    if k < n - 1 {
      VinIdOfRow(vins, rows, n - 1, k);
      LookupStable(vins, rows, n - 1, n, rows[k].vin.value);
    }
  }

  /** One sample per row, in row order; the k-th refers to the vehicle
      whose vin is the k-th row's vin in the relation after loading. */
  lemma SamplesAfterRows(vins: seq<Vin>, rows: seq<Record>, n: nat)
    requires AllVinsPresent(rows) && n <= |rows|
    ensures var after, samples := VinsAfter(vins, rows, n), SamplesAfter(vins, rows, n);
      forall k :: 0 <= k < n ==>
        && Lookup(after, rows[k].vin.value).Some?
        && samples[k] == ToSample(Lookup(after, rows[k].vin.value).value.id, rows[k])
  {
    forall k | 0 <= k < n
      ensures Lookup(VinsAfter(vins, rows, n), rows[k].vin.value).Some?
      ensures SamplesAfter(vins, rows, n)[k] == ToSample(Lookup(VinsAfter(vins, rows, n), rows[k].vin.value).value.id, rows[k])
    {
      VinIdOfRow(vins, rows, n, k);
    }
  }

  /** Every appended sample refers to a vehicle of the new relation. */
  lemma SamplesReferToVins(vins: seq<Vin>, rows: seq<Record>)
    requires AllVinsPresent(rows)
    ensures ForeignKeysHold(VinsAfter(vins, rows, |rows|), SamplesAfter(vins, rows, |rows|))
  {
    var after := VinsAfter(vins, rows, |rows|);
    SamplesAfterRows(vins, rows, |rows|);
    forall k | 0 <= k < |rows|
      ensures SamplesAfter(vins, rows, |rows|)[k].vinId in Ids(after)
    {
      var i := LookupIndex(after, rows[k].vin.value, 0);
      assert after[i].id in Ids(after);
    }
  }

  /** Loading rows whose vins all have a vehicle creates none. */
  lemma {:induction false} LoadKnownVins(vins: seq<Vin>, rows: seq<Record>, n: nat)
    requires AllVinsPresent(rows) && n <= |rows|
    requires forall k :: 0 <= k < |rows| ==> Lookup(vins, rows[k].vin.value).Some?
    ensures VinsAfter(vins, rows, n) == vins
    decreases n
  {
    if n > 0 {
      LoadKnownVins(vins, rows, n - 1);
    }
  }

  /** Loading the same rows again creates no vehicle ... */
  lemma ReloadAddsNoVins(vins: seq<Vin>, rows: seq<Record>)
    requires AllVinsPresent(rows)
    ensures var after := VinsAfter(vins, rows, |rows|);
      VinsAfter(after, rows, |rows|) == after
  {
    VinsAfterCovers(vins, rows, |rows|);
    LoadKnownVins(VinsAfter(vins, rows, |rows|), rows, |rows|);
  }

  /** ... but appends every sample a second time, each referring to the
      same vehicle as the first time. */
  lemma ReloadRepeatsSamples(vins: seq<Vin>, rows: seq<Record>)
    requires AllVinsPresent(rows)
    ensures var after := VinsAfter(vins, rows, |rows|);
      SamplesAfter(after, rows, |rows|) == SamplesAfter(vins, rows, |rows|)
  {
    var after := VinsAfter(vins, rows, |rows|);
    ReloadAddsNoVins(vins, rows);
    SamplesAfterRows(vins, rows, |rows|);
    SamplesAfterRows(after, rows, |rows|);
  }

  /** The state after one more row, as the loop of `load_data` keeps it:
      the vehicles and the samples, committed or not, of `i + 1` rows. */
  lemma LoadNextRow(vins: seq<Vin>, samples: seq<Sample>, rows: seq<Record>, i: nat,
                    committed: seq<Sample>, waiting: seq<Sample>,
                    committed': seq<Sample>, waiting': seq<Sample>, vins': seq<Vin>)
    requires AllVinsPresent(rows) && i < |rows|
    requires committed + waiting == samples + SamplesAfter(vins, rows, i)
    requires vins' == WithVin(VinsAfter(vins, rows, i), rows[i].vin.value)
    requires Lookup(vins', rows[i].vin.value).Some?
    requires committed' + waiting' == committed + waiting + [ToSample(Lookup(vins', rows[i].vin.value).value.id, rows[i])]
    ensures vins' == VinsAfter(vins, rows, i + 1)
    ensures committed' + waiting' == samples + SamplesAfter(vins, rows, i + 1)
  {
    SamplesAfterStep(vins, rows, i);
  }

  /** A foreign key that holds keeps holding when vehicles are added. */
  lemma ForeignKeysGrow(vins: seq<Vin>, more: seq<Vin>, samples: seq<Sample>)
    requires ForeignKeysHold(vins, samples) && Ids(vins) <= Ids(more)
    ensures ForeignKeysHold(more, samples)
  {
  }

  // ---------------------------------------------------------------------
  // The store.

  /** The database the loader writes to: the committed vehicles and
      samples. */
  class Store {
    var vins: seq<Vin>
    var samples: seq<Sample>

    /** The schema's constraints: unique vins, a primary key on ids, and a
        foreign key from every sample to a vehicle. */
    ghost predicate Valid()
      reads this
    {
      UniqueVins(vins) && DistinctIds(vins) && ForeignKeysHold(vins, samples)
    }

    constructor ()
      ensures Valid() && vins == [] && samples == []
    {
      vins := [];
      samples := [];
    }

    /** `create_tables`: the tables already exist in the store, so this
        changes nothing. */
    method CreateTables()
      requires Valid()
      ensures Valid() && unchanged(this)
    {
    }

    /** The vehicle with vin text `v`, scanning the relation in order. */
    method FindVin(v: string) returns (r: Option<Vin>)
      ensures r == Lookup(vins, v)
    {
      var i := 0;
      while i < |vins|
        invariant 0 <= i <= |vins|
        invariant Lookup(vins, v) == LookupFrom(vins, v, i)
      {
        if vins[i].vin == v {
          return Some(vins[i]);
        }
        i := i + 1;
      }
      return None;
    }

    /** The body of the loop of `load_data` for one row: find or create
        the row's vehicle (committing a new one at once, together with the
        samples added so far) and add the row's sample to those not yet
        committed. */
    method LoadRow(row: Record, pending: seq<Sample>) returns (pending': seq<Sample>)
      requires Valid() && row.vin.Some? && ForeignKeysHold(vins, pending)
      modifies this
      ensures Valid() && ForeignKeysHold(vins, pending')
      ensures vins == WithVin(old(vins), row.vin.value) && Lookup(vins, row.vin.value).Some?
      ensures samples + pending' == old(samples) + pending + [ToSample(Lookup(vins, row.vin.value).value.id, row)]
      ensures Lookup(old(vins), row.vin.value).Some? ==> vins == old(vins) && samples == old(samples)
      ensures Lookup(old(vins), row.vin.value).None? ==> samples == old(samples) + pending && |pending'| == 1
    {
      var v := row.vin.value;
      WithVinKeepsKeys(vins, v);
      var found := FindVin(v);
      var vin: Vin;
      pending' := pending;
      if found.None? {
        vin := Vin(NextId(vins), v);
        LookupAppend(vins, v, vin);
        vins := vins + [vin];
        samples := samples + pending';
        pending' := [];
      } else {
        vin := found.value;
      }
      assert vin.id in Ids(vins) by {
        var j := LookupIndex(vins, v, 0);
        assert vins[j].id in Ids(vins);
      }
      ForeignKeysGrow(old(vins), vins, old(samples));
      ForeignKeysGrow(old(vins), vins, pending');
      pending' := pending' + [ToSample(vin.id, row)];
    }

    /** `load_data`: creates the tables, loads every row in order, then
        commits the samples not committed yet. */
    method LoadData(rows: seq<Record>)
      requires Valid() && AllVinsPresent(rows)
      modifies this
      ensures Valid()
      ensures vins == VinsAfter(old(vins), rows, |rows|)
      ensures samples == old(samples) + SamplesAfter(old(vins), rows, |rows|)
      ensures old(vins) <= vins
    {
      CreateTables();
      var pending: seq<Sample> := [];
      var i := 0;
      while i < |rows|
        invariant 0 <= i <= |rows|
        invariant Valid() && ForeignKeysHold(vins, pending)
        invariant vins == VinsAfter(old(vins), rows, i)
        invariant samples + pending == old(samples) + SamplesAfter(old(vins), rows, i)
      {
        ghost var committed, waiting := samples, pending;
        pending := LoadRow(rows[i], pending);
        LoadNextRow(old(vins), old(samples), rows, i, committed, waiting, samples, pending, vins);
        i := i + 1;
      }
      samples := samples + pending;
      VinsAfterPrefix(old(vins), rows, 0, |rows|);
    }
  }
}
