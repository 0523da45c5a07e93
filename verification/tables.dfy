/** The vehicle-telemetry table: its raw and cleaned row shapes, and the two
    whole-table operations the transform is built from, row-wise mapping
    (a column assignment) and row filtering (`dropna`). */
module Tables {
  import opened Cells
  import opened DateTimes

  /** A row as read from the CSV export: every cell is text or missing. */
  datatype RawRecord = RawRecord(
    vin: Option<string>,
    company: Option<string>,
    datehour: Option<string>,
    geolocation: Option<string>,
    mileage: Option<string>,
    chargingpower: Option<string>,
    remainingelectricalrange: Option<string>,
    enginestatus: Option<string>,
    speed: Option<string>)

  /** A row of the table being cleaned: the four numeric columns hold
      numbers, `dateHour` is the parsed `date_hour` column, `latitude` and
      `longitude` the halves of `geolocation`. A column the transform has
      not created yet is missing. */
  datatype Record = Record(
    vin: Option<string>,
    company: Option<string>,
    datehour: Option<string>,
    geolocation: Option<string>,
    enginestatus: Option<string>,
    mileage: Option<real>,
    chargingpower: Option<real>,
    remainingelectricalrange: Option<real>,
    speed: Option<real>,
    dateHour: Option<DateTime>,
    latitude: Option<real>,
    longitude: Option<real>)

  /** Applies `f` to every row, keeping the order. */
  function MapRows<T, U>(s: seq<T>, f: T -> U): (r: seq<U>)
    ensures |r| == |s|
    ensures forall k :: 0 <= k < |s| ==> r[k] == f(s[k])
  {
    seq(|s|, k requires 0 <= k < |s| => f(s[k]))
  }

  /** The rows for which `keep` holds, in their original order. */
  function Filter<T>(s: seq<T>, keep: T -> bool): (r: seq<T>)
    ensures |r| <= |s|
    ensures forall k :: 0 <= k < |r| ==> keep(r[k])
    decreases |s|
  {
    if |s| == 0 then []
    else Filter(s[..|s| - 1], keep) + (if keep(s[|s| - 1]) then [s[|s| - 1]] else [])
  }

  /** The positions of the rows for which `keep` holds, ascending. */
  function KeptPositions<T>(s: seq<T>, keep: T -> bool): (idx: seq<nat>)
    ensures forall k :: 0 <= k < |idx| ==> idx[k] < |s| && keep(s[idx[k]])
    ensures forall k, l :: 0 <= k < l < |idx| ==> idx[k] < idx[l]
    ensures forall i :: 0 <= i < |s| && keep(s[i]) ==> i in idx
    decreases |s|
  {
    if |s| == 0 then []
    else KeptPositions(s[..|s| - 1], keep) + (if keep(s[|s| - 1]) then [|s| - 1] else [])
  }

  /** Filtering keeps exactly the rows at the kept positions: the k-th
      surviving row is the input row at the k-th position where `keep`
      holds, so survivors keep their relative order and every row that
      satisfies `keep` survives. */
  lemma {:induction false} FilterSelects<T>(s: seq<T>, keep: T -> bool)
    ensures var r, idx := Filter(s, keep), KeptPositions(s, keep);
      |r| == |idx| && forall k :: 0 <= k < |r| ==> r[k] == s[idx[k]]
    decreases |s|
  {
    if |s| > 0 {
      var front := s[..|s| - 1];
      FilterSelects(front, keep);
      assert forall k :: 0 <= k < |KeptPositions(front, keep)| ==> front[KeptPositions(front, keep)[k]] == s[KeptPositions(front, keep)[k]];
    }
  }

  /** Filtering after a row-wise map is mapping after filtering by the
      composed test. */
  lemma {:induction false} FilterMap<T, U>(s: seq<T>, f: T -> U, keepAfter: U -> bool, keepBefore: T -> bool)
    requires forall x :: keepAfter(f(x)) == keepBefore(x)
    ensures Filter(MapRows(s, f), keepAfter) == MapRows(Filter(s, keepBefore), f)
    decreases |s|
  {
    if |s| > 0 {
      var front := s[..|s| - 1];
      assert MapRows(s, f)[..|s| - 1] == MapRows(front, f);
      FilterMap(front, f, keepAfter, keepBefore);
      var kept := Filter(front, keepBefore);
      if keepBefore(s[|s| - 1]) {
        assert MapRows(kept + [s[|s| - 1]], f) == MapRows(kept, f) + [f(s[|s| - 1])];
      } else {
        assert kept + [] == kept;
      }
    }
  }

  /** Two filters in a row are one filter by the conjunction. */
  lemma {:induction false} FilterFilter<T>(s: seq<T>, first: T -> bool, second: T -> bool, both: T -> bool)
    requires forall x :: both(x) == (first(x) && second(x))
    ensures Filter(Filter(s, first), second) == Filter(s, both)
    decreases |s|
  {
    if |s| > 0 {
      var front := s[..|s| - 1];
      var last := s[|s| - 1];
      FilterFilter(front, first, second, both);
      var once := Filter(front, first);
      if first(last) {
        assert (once + [last])[..|once|] == once;
      } else {
        assert once + [] == once;
      }
    }
  }

  /** Mapping twice is mapping by the composition. */
  lemma MapMap<T, U, V>(s: seq<T>, f: T -> U, g: U -> V, gf: T -> V)
    requires forall x :: gf(x) == g(f(x))
    ensures MapRows(MapRows(s, f), g) == MapRows(s, gf)
  {
  }
}
