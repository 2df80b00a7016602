/** Acceleration unit conversion (`convert_accel_units`,
    smtk/sm_utils.py:51-90) and the range check and bracketing of
    `get_interpolated_period` (smtk/sm_utils.py:167-189). Values are exact
    reals: binary floating point is not modelled. */
module Units {
  import opened Wrappers
  import opened Numbers

  /** Standard gravity in m/s², `scipy.constants.g`. The conversion below
      writes g and 100·g out as the literals 9.80665 and 980.665. */
  const G: real := 9.80665

  /** The three unit families the conversion knows. */
  datatype Family = Gravity | MetresPerSecondSquared | CentimetresPerSecondSquared

  /** The spellings of each family; any other text is unrecognised. */
  function FamilyOf(unit: string): (f: Option<Family>)
    ensures f == Some(Gravity) <==> unit == "g"
    ensures f == Some(MetresPerSecondSquared) <==> IsMetric(unit)
    ensures f == Some(CentimetresPerSecondSquared) <==> IsCentimetric(unit)
  {
    if unit == "g" then Some(Gravity)
    else if IsMetric(unit) then Some(MetresPerSecondSquared)
    else if IsCentimetric(unit) then Some(CentimetresPerSecondSquared)
    else None
  }

  /** `unit in m_sec_square`. */
  predicate IsMetric(unit: string) {
    unit == "m/s/s" || unit == "m/s**2" || unit == "m/s^2"
  }

  /** `unit in cm_sec_square`. */
  predicate IsCentimetric(unit: string) {
    unit == "cm/s/s" || unit == "cm/s**2" || unit == "cm/s^2"
  }

  /** The target unit when the caller names none. */
  const DefaultTarget := "cm/s/s"

  datatype UnitError = UnrecognisedUnits(from: string, to: string)

  /** `convert_accel_units(acceleration, from_, to_)`, branch by branch. */
  function ConvertAccel(acceleration: real, from: string, to: string): (r: Result<real, UnitError>)
    ensures r.Failure? <==> FamilyOf(from).None? || FamilyOf(to).None?
  {
    if from == "g" && to == "g" then Success(acceleration)
    else if from == "g" && IsMetric(to) then Success(acceleration * 9.80665)
    else if from == "g" && IsCentimetric(to) then Success(acceleration * 980.665)
    else if IsMetric(from) && to == "g" then Success(acceleration / 9.80665)
    else if IsMetric(from) && IsMetric(to) then Success(acceleration)
    else if IsMetric(from) && IsCentimetric(to) then Success(acceleration * 100.0)
    else if IsCentimetric(from) && to == "g" then Success(acceleration / 980.665)
    else if IsCentimetric(from) && IsMetric(to) then Success(acceleration / 100.0)
    else if IsCentimetric(from) && IsCentimetric(to) then Success(acceleration)
    else Failure(UnrecognisedUnits(from, to))
  }

  /** How many cm/s² one unit of a family is. */
  function CentimetresPer(f: Family): (k: real)
    ensures k > 0.0
  {
    match f
    case Gravity => 980.665
    case MetresPerSecondSquared => 100.0
    case CentimetresPerSecondSquared => 1.0
  }

  /** Every conversion is the same physical quantity re-expressed: go to
      cm/s², then to the target family. */
  lemma ConvertViaCentimetres(acceleration: real, from: string, to: string)
    requires FamilyOf(from).Some? && FamilyOf(to).Some?
    ensures ConvertAccel(acceleration, from, to).Success?
    ensures ConvertAccel(acceleration, from, to).value ==
              acceleration * CentimetresPer(FamilyOf(from).value) / CentimetresPer(FamilyOf(to).value)
  {
  }

  /** Into the default target, a value is scaled by its unit's cm/s²
      factor. */
  lemma ToDefaultTarget(acceleration: real, from: string)
    requires FamilyOf(from).Some?
    ensures ConvertAccel(acceleration, from, DefaultTarget) ==
              Success(acceleration * CentimetresPer(FamilyOf(from).value))
  {
    ConvertViaCentimetres(acceleration, from, DefaultTarget);
  }

  /** A stored float multiplied by a positive factor: NaN and the
      infinities are kept, a finite value is scaled. */
  function Scale(a: Float, k: real): (r: Float)
    requires k > 0.0
    ensures r.NaN? <==> a.NaN?
    ensures r.Inf? <==> a.Inf?
    ensures a.Inf? ==> r.positive == a.positive
    ensures a.Fin? ==> r.Fin? && r.x / k == a.x
  {
    match a
    case NaN => NaN
    case Inf(positive) => Inf(positive)
    case Fin(x) => Fin(x * k)
  }

  /** `convert_accel_units` on a float: numpy's arithmetic keeps NaN and
      an infinity (every factor is positive), and the unit check raises
      exactly as for a finite value. */
  function ConvertAccelFloat(acceleration: Float, from: string, to: string): (r: Result<Float, UnitError>)
    ensures r.Failure? <==> FamilyOf(from).None? || FamilyOf(to).None?
    ensures acceleration.Fin? && r.Success? ==>
              r.value == Fin(ConvertAccel(acceleration.x, from, to).value)
  {
    match acceleration
    case Fin(x) =>
      var y :- ConvertAccel(x, from, to);
      Success(Fin(y))
    case _ =>
      if FamilyOf(from).None? || FamilyOf(to).None? then Failure(UnrecognisedUnits(from, to))
      else Success(acceleration)
  }

  /** Into the default target, a float of any kind is scaled by its
      unit's cm/s² factor; in particular NaN stays NaN and an infinity
      keeps its sign. */
  lemma FloatToDefaultTarget(acceleration: Float, from: string)
    requires FamilyOf(from).Some?
    ensures ConvertAccelFloat(acceleration, from, DefaultTarget) ==
              Success(Scale(acceleration, CentimetresPer(FamilyOf(from).value)))
  {
    if acceleration.Fin? {
      ToDefaultTarget(acceleration.x, from);
    }
  }

  /** Converting within one family returns the input unchanged. */
  lemma SameFamilyIdentity(acceleration: real, from: string, to: string)
    requires FamilyOf(from).Some? && FamilyOf(from) == FamilyOf(to)
    ensures ConvertAccel(acceleration, from, to) == Success(acceleration)
  {
  }

  /** Converting there and back gives the input again. */
  lemma ConvertRoundTrip(acceleration: real, from: string, to: string)
    requires FamilyOf(from).Some? && FamilyOf(to).Some?
    ensures ConvertAccel(ConvertAccel(acceleration, from, to).value, to, from) == Success(acceleration)
  {
    ConvertViaCentimetres(acceleration, from, to);
    var b := ConvertAccel(acceleration, from, to).value;
    ConvertViaCentimetres(b, to, from);
    var kf := CentimetresPer(FamilyOf(from).value);
    var kt := CentimetresPer(FamilyOf(to).value);
    assert b * kt / kf == acceleration;
  }

  /** Two conversions in a row are one conversion. */
  lemma ConvertCompose(acceleration: real, from: string, via: string, to: string)
    requires FamilyOf(from).Some? && FamilyOf(via).Some? && FamilyOf(to).Some?
    ensures ConvertAccel(ConvertAccel(acceleration, from, via).value, via, to) == ConvertAccel(acceleration, from, to)
  {
    ConvertViaCentimetres(acceleration, from, via);
    var b := ConvertAccel(acceleration, from, via).value;
    ConvertViaCentimetres(b, via, to);
    ConvertViaCentimetres(acceleration, from, to);
    var kf := CentimetresPer(FamilyOf(from).value);
    var kv := CentimetresPer(FamilyOf(via).value);
    var kt := CentimetresPer(FamilyOf(to).value);
    assert b * kv / kt == acceleration * kf / kt;
  }

  /** With the default target, one g is `100 * g` cm/s² and one m/s² is
      exactly 100 cm/s². */
  lemma DefaultTargetFactors(acceleration: real)
    ensures ConvertAccel(acceleration, "g", DefaultTarget) == Success(acceleration * 100.0 * G)
    ensures ConvertAccel(acceleration, "m/s^2", DefaultTarget) == Success(acceleration * 100.0)
    ensures ConvertAccel(acceleration * 100.0 * G, DefaultTarget, "g") == Success(acceleration)
  {
  }

  /** What `get_interpolated_period` does after its checks: return a
      tabulated value, or interpolate between two indices (the log-space
      interpolation itself is not modelled). */
  datatype Lookup = Exact(value: real) | Between(lower: nat, upper: nat)

  datatype PeriodError = EmptyPeriods | OutOfRange(target: real) | NoSuchValue(index: nat)

  predicate IsMin(xs: seq<real>, m: real) {
    (exists i :: 0 <= i < |xs| && xs[i] == m) && forall i :: 0 <= i < |xs| ==> m <= xs[i]
  }

  predicate IsMax(xs: seq<real>, m: real) {
    (exists i :: 0 <= i < |xs| && xs[i] == m) && forall i :: 0 <= i < |xs| ==> xs[i] <= m
  }

  /** `np.min` of a non-empty sequence. */
  function Min(xs: seq<real>): (m: real)
    requires |xs| > 0
    ensures IsMin(xs, m)
  {
    if |xs| == 1 then xs[0]
    else
      var m := Min(xs[1..]);
      assert forall i :: 1 <= i < |xs| ==> xs[i] == xs[1..][i - 1];
      if xs[0] <= m then xs[0] else m
  }

  /** `np.max` of a non-empty sequence. */
  function Max(xs: seq<real>): (m: real)
    requires |xs| > 0
    ensures IsMax(xs, m)
  {
    if |xs| == 1 then xs[0]
    else
      var m := Max(xs[1..]);
      assert forall i :: 1 <= i < |xs| ==> xs[i] == xs[1..][i - 1];
      if xs[0] >= m then xs[0] else m
  }

  /** `np.where(periods <= target)[0][-1]`: the last index at or below. */
  function LastAtMost(xs: seq<real>, target: real): (i: nat)
    requires exists k :: 0 <= k < |xs| && xs[k] <= target
    ensures i < |xs| && xs[i] <= target
    ensures forall k :: i < k < |xs| ==> xs[k] > target
  {
    if xs[|xs| - 1] <= target then |xs| - 1
    else
      var p := xs[..|xs| - 1];
      assert forall k :: 0 <= k < |p| ==> p[k] == xs[k];
      LastAtMost(p, target)
  }

  /** `np.where(periods >= target)[0][0]`: the first index at or above. */
  function FirstAtLeast(xs: seq<real>, target: real): (i: nat)
    requires exists k :: 0 <= k < |xs| && xs[k] >= target
    ensures i < |xs| && xs[i] >= target
    ensures forall k :: 0 <= k < i ==> xs[k] < target
  {
    if xs[0] >= target then 0
    else
      assert forall k :: 1 <= k < |xs| ==> xs[k] == xs[1..][k - 1];
      1 + FirstAtLeast(xs[1..], target)
  }

  /** The checks and bracketing of `get_interpolated_period`. */
  function InterpolatedPeriod(target: real, periods: seq<real>, values: seq<real>): (r: Result<Lookup, PeriodError>)
    ensures |periods| == 0 ==> r == Failure(EmptyPeriods)
    ensures |periods| > 0 ==>
              (r.Failure? && r.error.OutOfRange? <==> target < Min(periods) || target > Max(periods))
  {
    if |periods| == 0 then Failure(EmptyPeriods)
    else if target < Min(periods) || target > Max(periods) then Failure(OutOfRange(target))
    else
      var lo := LastAtMost(periods, target);
      var hi := FirstAtLeast(periods, target);
      if hi == lo then
        if lo < |values| then Success(Exact(values[lo])) else Failure(NoSuchValue(lo))
      else Success(Between(lo, hi))
  }

  /** An exact result is always the value of a tabulated period equal to
      the target. */
  lemma ExactIsTabulated(target: real, periods: seq<real>, values: seq<real>)
    requires InterpolatedPeriod(target, periods, values).Success?
    requires InterpolatedPeriod(target, periods, values).value.Exact?
    ensures exists k :: 0 <= k < |periods| && k < |values| && periods[k] == target &&
                        InterpolatedPeriod(target, periods, values).value.value == values[k]
  {
    var lo := LastAtMost(periods, target);
    assert periods[lo] == target;
  }

  predicate StrictlyIncreasing(xs: seq<real>) {
    forall i, j :: 0 <= i < j < |xs| ==> xs[i] < xs[j]
  }

  /** On strictly increasing periods, a target equal to a tabulated period
      gets that period's value, with no interpolation. */
  lemma ExactHit(periods: seq<real>, values: seq<real>, k: nat)
    requires StrictlyIncreasing(periods)
    requires k < |periods| && k < |values|
    ensures InterpolatedPeriod(periods[k], periods, values) == Success(Exact(values[k]))
  {
    var t := periods[k];
    assert !(t < Min(periods)) && !(t > Max(periods));
    var lo := LastAtMost(periods, t);
    var hi := FirstAtLeast(periods, t);
    assert lo == k;
    assert hi == k;
  }

  /** On strictly increasing periods, a target strictly between tabulated
      periods is bracketed by two neighbouring indices. */
  lemma Bracketing(target: real, periods: seq<real>, values: seq<real>)
    requires StrictlyIncreasing(periods)
    requires InterpolatedPeriod(target, periods, values).Success?
    requires InterpolatedPeriod(target, periods, values).value.Between?
    ensures var b := InterpolatedPeriod(target, periods, values).value;
            && b.upper == b.lower + 1 && b.upper < |periods|
            && periods[b.lower] < target < periods[b.upper]
  {
    var lo := LastAtMost(periods, target);
    var hi := FirstAtLeast(periods, target);
    assert InterpolatedPeriod(target, periods, values) == Success(Between(lo, hi));
    assert periods[lo] < target;
    assert lo < hi;
    assert periods[lo + 1] > target;
  }
}
