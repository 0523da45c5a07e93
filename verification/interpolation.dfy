/** pandas' default `Series.interpolate()` (method 'linear', positions taken
    as equally spaced, limit direction 'forward') and `fillna` with its
    result, over a column of possibly missing numbers. */
module Interpolation {
  import opened Cells

  type Column = seq<Option<real>>

  /** The nearest known position before `k`, if any. */
  function PrevKnown(s: Column, k: nat): (r: Option<nat>)
    requires k <= |s|
    ensures r.Some? ==> r.value < k && s[r.value].Some?
    decreases k
  {
    if k == 0 then None
    else if s[k - 1].Some? then Some(k - 1)
    else PrevKnown(s, k - 1)
  }

  /** The nearest known position at or after `k`, if any. */
  function NextKnown(s: Column, k: nat): (r: Option<nat>)
    requires k <= |s|
    ensures r.Some? ==> k <= r.value < |s| && s[r.value].Some?
    decreases |s| - k
  {
    if k == |s| then None
    else if s[k].Some? then Some(k)
    else NextKnown(s, k + 1)
  }

  /** A known entry at `i` with only gaps up to `k` is the nearest known
      entry before `k`. */
  lemma {:induction false} PrevKnownIs(s: Column, i: nat, k: nat)
    requires i < k <= |s| && s[i].Some?
    requires forall t :: i < t < k ==> s[t].None?
    ensures PrevKnown(s, k) == Some(i)
    decreases k
  {
    if k - 1 > i {
      PrevKnownIs(s, i, k - 1);
    }
  }

  /** A known entry before `k` means there is a nearest one. */
  lemma {:induction false} PrevKnownFound(s: Column, i: nat, k: nat)
    requires i < k <= |s| && s[i].Some?
    ensures PrevKnown(s, k).Some?
    decreases k
  {
    if s[k - 1].None? {
      PrevKnownFound(s, i, k - 1);
    }
  }

  /** With only gaps before `k` there is no known entry before `k`. */
  lemma {:induction false} PrevKnownNone(s: Column, k: nat)
    requires k <= |s|
    requires forall t :: 0 <= t < k ==> s[t].None?
    ensures PrevKnown(s, k) == None
    decreases k
  {
    if k > 0 {
      PrevKnownNone(s, k - 1);
    }
  }

  /** A known entry at `j` with only gaps from `k` on is the nearest known
      entry at or after `k`. */
  lemma {:induction false} NextKnownIs(s: Column, k: nat, j: nat)
    requires k <= j < |s| && s[j].Some?
    requires forall t :: k <= t < j ==> s[t].None?
    ensures NextKnown(s, k) == Some(j)
    decreases j - k
  {
    if k < j {
      NextKnownIs(s, k + 1, j);
    }
  }

  /** With only gaps from `k` on there is no known entry at or after `k`. */
  lemma {:induction false} NextKnownNone(s: Column, k: nat)
    requires k <= |s|
    requires forall t :: k <= t < |s| ==> s[t].None?
    ensures NextKnown(s, k) == None
    decreases |s| - k
  {
    if k < |s| {
      NextKnownNone(s, k + 1);
    }
  }

  /** The point at position `k` on the straight line through `(i, a)` and `(j, b)`. */
  function Linear(a: real, b: real, i: nat, j: nat, k: nat): real
    requires i < j
  {
    a + (b - a) * ((k - i) as real / (j - i) as real)
  }

  /** The interpolated entry at position `k`. A gap with known neighbours
      on both sides lies on the line between them; a gap after the last
      known entry takes that entry (numpy's `interp` holds the end value);
      a gap before the first known entry stays missing (forward limit
      direction). */
  function InterpolateAt(s: Column, k: nat): Option<real>
    requires k < |s|
  {
    if s[k].Some? then s[k]
    else
      match PrevKnown(s, k)
      case None => None
      case Some(i) =>
        match NextKnown(s, k + 1)
        case None => s[i]
        case Some(j) => Some(Linear(s[i].value, s[j].value, i, j, k))
  }

  function Interpolate(s: Column): (r: Column)
    ensures |r| == |s|
  {
    seq(|s|, k requires 0 <= k < |s| => InterpolateAt(s, k))
  }

  /** `s.fillna(fill)`: missing entries of `s` take the entry of `fill` at
      the same position. Known entries are kept, and an entry is missing
      afterwards only where both `s` and `fill` miss it. */
  function FillNa(s: Column, fill: Column): (r: Column)
    requires |fill| == |s|
    ensures |r| == |s|
    ensures forall k :: 0 <= k < |s| && s[k].Some? ==> r[k] == s[k]
    ensures forall k :: 0 <= k < |s| ==> (r[k].None? <==> s[k].None? && fill[k].None?)
  {
    seq(|s|, k requires 0 <= k < |s| => if s[k].Some? then s[k] else fill[k])
  }

  /** Known entries are never changed by the interpolation. */
  lemma KnownUnchanged(s: Column, k: nat)
    requires k < |s| && s[k].Some?
    ensures Interpolate(s)[k] == s[k]
  {
  }

  /** A gap strictly between known entries at `i` and `j` lies on the line
      between them: m_i + (m_j - m_i) * (k - i) / (j - i). */
  lemma InteriorGap(s: Column, i: nat, k: nat, j: nat)
    requires i < k < j < |s|
    requires s[i].Some? && s[j].Some?
    requires forall t :: i < t < j ==> s[t].None?
    ensures Interpolate(s)[k] == Some(Linear(s[i].value, s[j].value, i, j, k))
  {
    PrevKnownIs(s, i, k);
    NextKnownIs(s, k + 1, j);
  }

  /** Gaps before the first known entry stay missing. */
  lemma LeadingGap(s: Column, k: nat)
    requires k < |s|
    requires forall t :: 0 <= t <= k ==> s[t].None?
    ensures Interpolate(s)[k] == None
  {
    PrevKnownNone(s, k);
  }

  /** Gaps after the last known entry, at `i`, take that entry. */
  lemma TrailingGap(s: Column, i: nat, k: nat)
    requires i < k < |s|
    requires s[i].Some?
    requires forall t :: i < t < |s| ==> s[t].None?
    ensures Interpolate(s)[k] == s[i]
  {
    PrevKnownIs(s, i, k);
    NextKnownNone(s, k + 1);
  }

  /** From the first known entry on, the interpolated column has no gaps. */
  lemma NoGapAfterFirstKnown(s: Column, i: nat, k: nat)
    requires i <= k < |s| && s[i].Some?
    ensures Interpolate(s)[k].Some?
  {
    if s[k].None? {
      PrevKnownFound(s, i, k);
    }
  }

  /** A linearly filled gap lies between its two neighbours. */
  lemma LinearBetween(a: real, b: real, i: nat, j: nat, k: nat)
    requires i < k < j
    ensures a <= b ==> a <= Linear(a, b, i, j, k) <= b
    ensures b <= a ==> b <= Linear(a, b, i, j, k) <= a
  {
    var num, den := (k - i) as real, (j - i) as real;
    var f := num / den;
    FractionWithin(num, den);
    assert Linear(a, b, i, j, k) == a + (b - a) * f;
    ScaleWithin(b - a, f);
  }

  /** A proper fraction of positive reals lies in [0, 1]. */
  lemma FractionWithin(num: real, den: real)
    requires 0.0 < num < den
    ensures 0.0 <= num / den <= 1.0
  {
  }

  /** A product of non-negative reals is non-negative. */
  lemma MulNonNeg(a: real, b: real)
    requires a >= 0.0 && b >= 0.0
    ensures a * b >= 0.0
  {
  }

  /** A fraction of a difference lies between zero and the difference. */
  lemma ScaleWithin(d: real, f: real)
    requires 0.0 <= f <= 1.0
    ensures d >= 0.0 ==> 0.0 <= d * f <= d
    ensures d <= 0.0 ==> d <= d * f <= 0.0
  {
    assert d - d * f == d * (1.0 - f);
    if d >= 0.0 {
      MulNonNeg(d, f);
      MulNonNeg(d, 1.0 - f);
    } else {
      MulNonNeg(-d, f);
      MulNonNeg(-d, 1.0 - f);
    }
  }

  /** `fillna(interpolate())` is the interpolated column itself: filling
      only the gaps loses nothing, since the interpolation keeps every
      known entry. */
  lemma FillWithInterpolation(s: Column)
    ensures FillNa(s, Interpolate(s)) == Interpolate(s)
  {
  }

  /** [10, _, 30] becomes [10, 20, 30]. */
  lemma MidpointExample()
    ensures Interpolate([Some(10.0), None, Some(30.0)]) == [Some(10.0), Some(20.0), Some(30.0)]
  {
    var s: Column := [Some(10.0), None, Some(30.0)];
    InteriorGap(s, 0, 1, 2);
  }

  /** [_, 10, 20] keeps its first entry missing. */
  lemma LeadingExample()
    ensures Interpolate([None, Some(10.0), Some(20.0)]) == [None, Some(10.0), Some(20.0)]
  {
    var s: Column := [None, Some(10.0), Some(20.0)];
    LeadingGap(s, 0);
  }

  /** [10, _, _] becomes [10, 10, 10]. */
  lemma TrailingExample()
    ensures Interpolate([Some(10.0), None, None]) == [Some(10.0), Some(10.0), Some(10.0)]
  {
    var s: Column := [Some(10.0), None, None];
    TrailingGap(s, 0, 1);
    TrailingGap(s, 0, 2);
  }
}
