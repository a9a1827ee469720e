/**
  The control of the iterative loudness refinement in `normalize_files`.
  Loudness measurement lives in a library, so the meter is a parameter: a
  function from the cumulative gain applied to the input (in dB) to the
  integrated loudness the library reports for the result (in LUFS).
  Applying `normalize.loudness(x, cur, cur + c)` adds `c` dB to the gain.
*/
module Refinement {

  /** Distance from the target, in LUFS, at which refinement stops. */
  const Tolerance: real := 0.01

  /** Refinement passes after the initial normalisation, at most. */
  const MaxPasses: nat := 50

  function Abs(x: real): (r: real)
    ensures r >= 0.0
    ensures r == x || r == -x
  {
    if x < 0.0 then -x else x
  }

  /** Integrated loudness of the input after a cumulative gain. */
  type Meter = real -> real

  /** The loop's guard: the measurement is still off by more than the tolerance. */
  predicate OutOfTolerance(cur: real, target: real) {
    Abs(cur - target) > Tolerance
  }

  /**
    The initial normalisation: the input is measured as it is and moved by
    the difference to the target.
  */
  function InitialGain(m: Meter, target: real): (g: real)
    ensures m(0.0) + g == target
  {
    target - m(0.0)
  }

  /** One refinement pass: the gain grows by the target minus the current measurement. */
  function Corrected(m: Meter, target: real, g: real): (g': real)
    ensures g' - g == target - m(g)
  {
    g + (target - m(g))
  }

  /** Where the refinement ends and after how many passes. */
  datatype Outcome = Outcome(gain: real, loudness: real, passes: nat)

  /**
    Reference definition of the loop: starting from gain `g` with `done`
    passes behind it, keep correcting while the measurement is out of
    tolerance and fewer than `MaxPasses` passes have run.
  */
  function RefineFrom(m: Meter, target: real, g: real, done: nat): (r: Outcome)
    requires done <= MaxPasses
    ensures done <= r.passes <= MaxPasses
    ensures r.loudness == m(r.gain)
    ensures !OutOfTolerance(r.loudness, target) || r.passes == MaxPasses
    ensures !OutOfTolerance(m(g), target) ==> r == Outcome(g, m(g), done)
    decreases MaxPasses - done
  {
    if OutOfTolerance(m(g), target) && done < MaxPasses then
      RefineFrom(m, target, Corrected(m, target, g), done + 1)
    else
      Outcome(g, m(g), done)
  }

  /** The whole refinement of one file, from the input as loaded. */
  function Refine(m: Meter, target: real): (r: Outcome)
    ensures r.passes <= MaxPasses
    ensures r.loudness == m(r.gain)
    ensures !OutOfTolerance(r.loudness, target) || r.passes == MaxPasses
  {
    RefineFrom(m, target, InitialGain(m, target), 0)
  }

  /** The gains the loop visits: `trace[k]` is the gain after `k` passes. */
  predicate IsCorrectionTrace(m: Meter, target: real, trace: seq<real>) {
    && |trace| >= 1
    && trace[0] == InitialGain(m, target)
    && (forall k, k' :: 0 <= k < |trace| && 0 <= k' < |trace| && k' == k + 1 ==> trace[k'] - trace[k] == target - m(trace[k]))
    && (forall k :: 0 <= k < |trace| - 1 ==> OutOfTolerance(m(trace[k]), target))
  }

  /** A pass from an out-of-tolerance gain extends the trace by its correction. */
  lemma ExtendTrace(m: Meter, target: real, trace: seq<real>)
    requires IsCorrectionTrace(m, target, trace)
    requires OutOfTolerance(m(trace[|trace| - 1]), target)
    ensures IsCorrectionTrace(m, target, trace + [Corrected(m, target, trace[|trace| - 1])])
  {
    var t := trace + [Corrected(m, target, trace[|trace| - 1])];
    assert forall k :: 0 <= k < |trace| ==> t[k] == trace[k];
  }

  /**
    The loop as the program runs it. `trace` records the gain before every
    pass and after the last: each pass applies exactly the target minus the
    measurement before it, a pass only runs while that measurement is out of
    tolerance, and the loop stops within tolerance or after 50 passes.
  */
  method RefineLoop(m: Meter, target: real) returns (gain: real, cur: real, it: nat, trace: seq<real>)
    ensures it <= MaxPasses
    ensures cur == m(gain)
    ensures !OutOfTolerance(cur, target) || it == MaxPasses
    ensures IsCorrectionTrace(m, target, trace)
    ensures |trace| == it + 1 && trace[it] == gain
    ensures Outcome(gain, cur, it) == Refine(m, target)
    ensures !OutOfTolerance(m(InitialGain(m, target)), target) ==> it == 0 && gain == InitialGain(m, target)
  {
    gain := InitialGain(m, target);
    cur := m(gain);
    it := 0;
    trace := [gain];
    while OutOfTolerance(cur, target) && it < MaxPasses
      invariant it <= MaxPasses
      invariant cur == m(gain)
      invariant IsCorrectionTrace(m, target, trace)
      invariant |trace| == it + 1 && trace[it] == gain
      invariant RefineFrom(m, target, gain, it) == Refine(m, target)
      decreases MaxPasses - it
    {
      ExtendTrace(m, target, trace);
      it := it + 1;
      gain := Corrected(m, target, gain);
      cur := m(gain);
      trace := trace + [gain];
    }
  }

  /** A meter whose reading moves dB for dB with the applied gain. */
  ghost predicate IsExact(m: Meter, base: real) {
    forall g :: m(g) == base + g
  }

  /**
    With an exact meter the initial normalisation hits the target and the
    loop makes no pass.
  */
  lemma ExactMeterNeedsNoPass(m: Meter, base: real, target: real)
    requires IsExact(m, base)
    ensures Refine(m, target) == Outcome(target - base, target, 0)
  {
    assert m(0.0) == base;
    assert m(target - base) == target;
  }

  /** A meter that responds to gain linearly with slope `a`. */
  ghost predicate IsLinear(m: Meter, base: real, a: real) {
    forall g :: m(g) == base + a * g
  }

  /**
    Under a linear meter of slope `a`, one pass multiplies the remaining
    error by `1 - a`: the loop converges when `0 < a < 2`.
  */
  lemma PassScalesError(m: Meter, base: real, a: real, target: real, g: real)
    requires IsLinear(m, base, a)
    ensures m(Corrected(m, target, g)) - target == (1.0 - a) * (m(g) - target)
  {
    var e := m(g) - target;
    var g' := Corrected(m, target, g);
    assert g' == g - e;
    assert m(g') == base + a * (g - e);
    assert base + a * (g - e) == (base + a * g) - a * e;
  }

  /** Every pass multiplies the distance from the target by `x`. */
  ghost predicate PassScales(m: Meter, target: real, x: real) {
    forall g :: m(Corrected(m, target, g)) - target == x * (m(g) - target)
  }

  /** A linear meter of slope `a` makes every pass scale the error by `1 - a`. */
  lemma LinearPassScales(m: Meter, base: real, a: real, target: real)
    requires IsLinear(m, base, a)
    ensures PassScales(m, target, 1.0 - a)
  {
    forall g ensures m(Corrected(m, target, g)) - target == (1.0 - a) * (m(g) - target) {
      PassScalesError(m, base, a, target, g);
    }
  }

  /**
    When every pass scales the error by `x`, the error after `k` passes is
    the error of the initial normalisation times `x^k`.
  */
  lemma ErrorAfterPasses(m: Meter, x: real, target: real, trace: seq<real>, k: nat)
    requires PassScales(m, target, x)
    requires IsCorrectionTrace(m, target, trace)
    requires k < |trace|
    ensures m(trace[k]) - target == Power(x, k) * (m(trace[0]) - target)
  {
    TraceErrorsScale(m, x, target, trace);
    ScaledErrors(m, x, target, trace, k);
  }

  /** A trace whose errors shrink by `x` per pass has error `x^k` times the first after `k` passes. */
  lemma ScaledErrors(m: Meter, x: real, target: real, trace: seq<real>, k: nat)
    requires forall j :: 0 < j < |trace| ==>
               Errors(m, target, trace)[j] == x * Errors(m, target, trace)[j - 1]
    requires k < |trace|
    ensures m(trace[k]) - target == Power(x, k) * (m(trace[0]) - target)
  {
    var errs := Errors(m, target, trace);
    GeometricErrors(errs, x, k);
    SameProduct(Power(x, k), errs[0], m(trace[0]) - target);
  }

  lemma SameProduct(p: real, a: real, b: real)
    requires a == b
    ensures p * a == p * b
  {
  }

  /** The distance from the target after each pass of a trace. */
  function Errors(m: Meter, target: real, trace: seq<real>): (r: seq<real>)
    ensures |r| == |trace|
    ensures forall j :: 0 <= j < |trace| ==> r[j] == m(trace[j]) - target
  {
    seq(|trace|, j requires 0 <= j < |trace| => m(trace[j]) - target)
  }

  /** Along a trace, each pass scales the error of the one before by `x`. */
  lemma TraceErrorsScale(m: Meter, x: real, target: real, trace: seq<real>)
    requires PassScales(m, target, x)
    requires IsCorrectionTrace(m, target, trace)
    ensures forall j :: 0 < j < |trace| ==>
              Errors(m, target, trace)[j] == x * Errors(m, target, trace)[j - 1]
  {
    forall j | 0 < j < |trace|
      ensures m(trace[j]) - target == x * (m(trace[j - 1]) - target)
    {
      TracePassScales(m, x, target, trace, j);
    }
  }

  lemma TracePassScales(m: Meter, x: real, target: real, trace: seq<real>, j: nat)
    requires PassScales(m, target, x)
    requires IsCorrectionTrace(m, target, trace)
    requires 0 < j < |trace|
    ensures m(trace[j]) - target == x * (m(trace[j - 1]) - target)
  {
    assert trace[j] == Corrected(m, target, trace[j - 1]);
  }

  /** A sequence whose every element is `x` times the one before is geometric. */
  lemma {:induction false} GeometricErrors(errs: seq<real>, x: real, k: nat)
    requires forall j :: 0 < j < |errs| ==> errs[j] == x * errs[j - 1]
    requires k < |errs|
    ensures errs[k] == Power(x, k) * errs[0]
  {
    if k > 0 {
      GeometricErrors(errs, x, k - 1);
      ScaleStep(x, Power(x, k - 1), Power(x, k), errs[0], errs[k - 1], errs[k]);
    }
  }

  /** Scaling an error that is already `q` times the initial one by `x`. */
  lemma ScaleStep(x: real, q: real, p: real, e0: real, e: real, e': real)
    requires p == x * q && e == q * e0 && e' == x * e
    ensures e' == p * e0
  {
  }

  function Power(x: real, k: nat): real {
    if k == 0 then 1.0 else x * Power(x, k - 1)
  }
}
