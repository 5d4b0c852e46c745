/** `_percentile`: linear interpolation between neighbouring order statistics. */
module Percentile {
  import opened Products
  import opened Sorting

  datatype Result = NoValue | Refused | Value(value: real)

  function Floor(x: real): int { x.Floor }
  function Ceil(x: real): int { -((-x).Floor) }

  /** The interpolated value at a position of the list. */
  function At(values: seq<real>, position: real): real
    requires values != [] && 0.0 <= position <= (|values| - 1) as real
  {
    var lower, upper := Floor(position), Ceil(position);
    assert position - 1.0 < lower as real <= position <= upper as real < position + 1.0;
    if lower == upper then values[lower]
    else values[lower] + Times(values[upper] - values[lower], position - lower as real)
  }

  function Percentile(values: seq<real>, probability: real): Result {
    if values == [] then NoValue
    else if !(0.0 <= probability <= 1.0) then Refused
    else
      PositionInRange(|values|, probability);
      Value(At(values, Times((|values| - 1) as real, probability)))
  }

  lemma PositionInRange(n: nat, p: real)
    requires n >= 1 && 0.0 <= p <= 1.0
    ensures 0.0 <= Times((n - 1) as real, p) <= (n - 1) as real
  {
    var m := (n - 1) as real;
    assert m * p >= 0.0 && m * (1.0 - p) >= 0.0;
  }

  ghost predicate Ascending(values: seq<real>) { Sorted(values, RealLeq) }

  lemma Neighbours(values: seq<real>, i: int, j: int)
    requires Ascending(values) && 0 <= i <= j < |values|
    ensures values[i] <= values[j]
  {
    assert i < j ==> RealLeq(values[i], values[j]);
  }

  /** The value lies between the two neighbouring order statistics, and is one of them at a
      whole position. */
  lemma Between(values: seq<real>, position: real)
    requires values != [] && Ascending(values) && 0.0 <= position <= (|values| - 1) as real
    ensures 0 <= Floor(position) <= Ceil(position) < |values|
    ensures values[Floor(position)] <= At(values, position) <= values[Ceil(position)]
    ensures position == Floor(position) as real ==> At(values, position) == values[Floor(position)]
  {
    var lower, upper := Floor(position), Ceil(position);
    assert position - 1.0 < lower as real <= position <= upper as real < position + 1.0;
    Neighbours(values, lower, upper);
    if lower < upper {
      Portion(values[upper] - values[lower], position - lower as real);
    }
  }

  lemma Portion(gap: real, part: real)
    requires gap >= 0.0 && 0.0 <= part <= 1.0
    ensures 0.0 <= Times(gap, part) <= gap
  {
    assert gap * part >= 0.0 && gap * (1.0 - part) >= 0.0;
  }

  lemma PortionGrows(gap: real, part: real, more: real)
    requires gap >= 0.0 && part <= more
    ensures Times(gap, part) <= Times(gap, more)
  {
    assert gap * (more - part) >= 0.0;
  }

  lemma AtGrows(values: seq<real>, x: real, y: real)
    requires values != [] && Ascending(values) && 0.0 <= x <= y <= (|values| - 1) as real
    ensures At(values, x) <= At(values, y)
  {
    Between(values, x);
    Between(values, y);
    if Floor(x) < Floor(y) {
      assert Ceil(x) <= Floor(y);
      Neighbours(values, Ceil(x), Floor(y));
    } else if x != Floor(x) as real {
      assert Floor(x) == Floor(y) && Ceil(x) == Ceil(y);
      Neighbours(values, Floor(x), Ceil(x));
      PortionGrows(values[Ceil(x)] - values[Floor(x)], x - Floor(x) as real, y - Floor(x) as real);
    }
  }

  // ----- main results -----

  /** Linear between neighbours: at the fraction f past the k-th element lies the mixture of it
      and the next one with weights 1 - f and f. Every position but the last is one of these. */
  lemma PercentileInterpolates(values: seq<real>, p: real, k: nat, f: real)
    requires 0.0 <= p <= 1.0 && k + 1 < |values| && 0.0 <= f < 1.0
    requires Times((|values| - 1) as real, p) == k as real + f
    ensures Percentile(values, p) == Value(Times(1.0 - f, values[k]) + Times(f, values[k + 1]))
  {
    var position := k as real + f;
    assert Floor(position) == k;
    assert f > 0.0 ==> Ceil(position) == k + 1;
    Mixture(values[k], values[k + 1], f);
  }

  lemma Mixture(a: real, b: real, f: real)
    ensures a + Times(b - a, f) == Times(1.0 - f, a) + Times(f, b)
    ensures f == 0.0 ==> Times(1.0 - f, a) + Times(f, b) == a
  {
  }

  /** No value for an empty list, a refusal for a probability outside [0, 1]. */
  lemma PercentileRefusals(values: seq<real>, p: real)
    ensures Percentile(values, p).NoValue? <==> values == []
    ensures Percentile(values, p).Refused? <==> values != [] && (p < 0.0 || p > 1.0)
  {
  }

  lemma PercentileIsMonotone(values: seq<real>, p: real, q: real)
    requires values != [] && Ascending(values) && 0.0 <= p <= q <= 1.0
    ensures Percentile(values, p).value <= Percentile(values, q).value
  {
    var m := (|values| - 1) as real;
    PositionInRange(|values|, p);
    PositionInRange(|values|, q);
    PortionGrows(m, p, q);
    AtGrows(values, Times(m, p), Times(m, q));
  }

  /** Where the position is exactly k, the result is the k-th element itself. */
  lemma PercentileHitsElements(values: seq<real>, p: real, k: nat)
    requires values != [] && Ascending(values) && 0.0 <= p <= 1.0
    requires k < |values| && Times((|values| - 1) as real, p) == k as real
    ensures Percentile(values, p) == Value(values[k])
  {
    Between(values, k as real);
  }

  /** First element at 0, last element at 1. */
  lemma PercentileEndpoints(values: seq<real>)
    requires values != [] && Ascending(values)
    ensures Percentile(values, 0.0) == Value(values[0])
    ensures Percentile(values, 1.0) == Value(values[|values| - 1])
  {
    var m := |values| - 1;
    TimesZero(m as real);
    assert Times(m as real, 1.0) == m as real;
    PercentileHitsElements(values, 0.0, 0);
    PercentileHitsElements(values, 1.0, m);
  }

  /** A percentile is bounded by the list's own extremes and so never leaves the data. */
  lemma PercentileWithinData(values: seq<real>, p: real)
    requires values != [] && Ascending(values) && 0.0 <= p <= 1.0
    ensures values[0] <= Percentile(values, p).value <= values[|values| - 1]
  {
    var m := (|values| - 1) as real;
    PositionInRange(|values|, p);
    Between(values, Times(m, p));
    Neighbours(values, 0, Floor(Times(m, p)));
    Neighbours(values, Ceil(Times(m, p)), |values| - 1);
  }
}
