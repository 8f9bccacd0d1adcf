/** The summary figures shown for a trajectory: heights below ground are
    masked out as not-a-number, the maximum height and the range are read off
    the remaining samples, and the flight time is the last recorded time.
    Not-a-number is modelled as None. */
module Metrics {
  import opened Physics
  import opened Flight

  datatype Option<T> = None | Some(value: T)

  /** Maximum height and range; None stands for not-a-number. */
  datatype Summary = Summary(height: Option<real>, range: Option<real>)

  /** Height masking before plotting: a height at or above ground is kept,
      a negative one becomes not-a-number. */
  function MaskBelowGround(ys: seq<real>): (m: seq<Option<real>>)
    ensures |m| == |ys|
    ensures forall j :: 0 <= j < |ys| ==> (m[j].Some? <==> ys[j] >= 0.0)
    ensures forall j :: 0 <= j < |ys| && m[j].Some? ==> m[j].value == ys[j]
  {
    seq(|ys|, j requires 0 <= j < |ys| => if ys[j] >= 0.0 then Some(ys[j]) else None)
  }

  /** The values that are present, in order (the heights selected by the
      finiteness mask). */
  function Present(ys: seq<Option<real>>): (r: seq<real>)
    ensures |r| <= |ys|
    ensures |r| == 0 <==> forall j :: 0 <= j < |ys| ==> ys[j].None?
    ensures forall v :: v in r <==> Some(v) in ys
  {
    if |ys| == 0 then []
    else
      var before := ys[..|ys| - 1];
      assert ys == before + [ys[|ys| - 1]];
      Present(before) + (if ys[|ys| - 1].Some? then [ys[|ys| - 1].value] else [])
  }

  /** The entries of xs at the positions where ys is present (the x
      coordinates selected by the same mask). */
  function Select(xs: seq<real>, ys: seq<Option<real>>): (r: seq<real>)
    requires |xs| == |ys|
    ensures |r| == |Present(ys)|
    ensures |r| > 0 ==> LastPresent(ys) >= 0 && r[|r| - 1] == xs[LastPresent(ys)]
  {
    if |ys| == 0 then []
    else
      var n := |ys| - 1;
      Select(xs[..n], ys[..n]) + (if ys[n].Some? then [xs[n]] else [])
  }

  /** The index of the last present value, or -1 when none is present. */
  function LastPresent(ys: seq<Option<real>>): (i: int)
    ensures -1 <= i < |ys|
    ensures i >= 0 ==> ys[i].Some?
    ensures forall k :: i < k < |ys| ==> ys[k].None?
  {
    if |ys| == 0 then -1
    else if ys[|ys| - 1].Some? then |ys| - 1
    else LastPresent(ys[..|ys| - 1])
  }

  /** The largest element of a non-empty sequence. */
  function MaxOf(s: seq<real>): (r: real)
    requires |s| > 0
    ensures r in s
    ensures forall v :: v in s ==> v <= r
  {
    if |s| == 1 then s[0]
    else
      var rest := MaxOf(s[1..]);
      assert s == [s[0]] + s[1..];
      if s[0] >= rest then s[0] else rest
  }

  /** Maximum height and range from masked samples: both not-a-number when no
      height is present, otherwise the largest present height and the x
      coordinate of the last present sample. */
  function ComputeMetrics(xs: seq<real>, ys: seq<Option<real>>): (r: Summary)
    requires |xs| == |ys|
    ensures r.height.None? <==> r.range.None?
    ensures r.height.None? <==> forall j :: 0 <= j < |ys| ==> ys[j].None?
    ensures r.height.Some? ==> Some(r.height.value) in ys
    ensures r.height.Some? ==> forall j :: 0 <= j < |ys| && ys[j].Some? ==> ys[j].value <= r.height.value
    ensures r.range.Some? ==> 0 <= LastPresent(ys) && r.range.value == xs[LastPresent(ys)]
  {
    var yEff := Present(ys);
    if |yEff| == 0 then Summary(None, None)
    else
      var xEff := Select(xs, ys);
      Summary(Some(MaxOf(yEff)), Some(xEff[|xEff| - 1]))
  }

  /** The displayed flight time: the last recorded time, or not-a-number for
      an empty record. */
  function FlightTime(ts: seq<real>): (r: Option<real>)
    ensures r.None? <==> |ts| == 0
    ensures r.Some? ==> r.value == ts[|ts| - 1]
  {
    if |ts| > 0 then Some(ts[|ts| - 1]) else None
  }

  /** For a run of the integrator the mask removes nothing, the maximum
      height is the largest recorded height, the range is the x coordinate of
      the last sample (the ground point when the projectile landed), and the
      flight time is the last recorded time. */
  lemma RunMetrics(step: State -> State, vx0: real, vy0: real, dt: real, tMax: real,
                   xs: seq<real>, ys: seq<real>, ts: seq<real>)
    requires IsRun(step, vx0, vy0, dt, tMax, xs, ys, ts)
    ensures forall j :: 0 <= j < |ys| ==> MaskBelowGround(ys)[j] == Some(ys[j])
    ensures var r := ComputeMetrics(xs, MaskBelowGround(ys));
      r.range == Some(xs[|xs| - 1]) && r.height.Some? && r.height.value in ys &&
      forall j :: 0 <= j < |ys| ==> ys[j] <= r.height.value
    ensures FlightTime(ts) == Some(ts[|ts| - 1])
  {
    RunHeightsNonNegative(step, vx0, vy0, dt, tMax, xs, ys, ts);
    AboveGroundMetrics(xs, ys);
  }

  /** Metrics of samples that are all at or above ground: nothing is masked,
      the height is the largest sample and the range the last x. */
  lemma AboveGroundMetrics(xs: seq<real>, ys: seq<real>)
    requires |xs| == |ys| >= 1
    requires forall j :: 0 <= j < |ys| ==> ys[j] >= 0.0
    ensures forall j :: 0 <= j < |ys| ==> MaskBelowGround(ys)[j] == Some(ys[j])
    ensures var r := ComputeMetrics(xs, MaskBelowGround(ys));
      r.range == Some(xs[|xs| - 1]) && r.height.Some? && r.height.value in ys &&
      forall j :: 0 <= j < |ys| ==> ys[j] <= r.height.value
  {
    var m := MaskBelowGround(ys);
    assert m[|m| - 1].Some?;
    var r := ComputeMetrics(xs, m);
    assert LastPresent(m) == |m| - 1;
    forall j | 0 <= j < |ys|
      ensures ys[j] <= r.height.value
    {
      assert m[j].Some?;
    }
    var i :| 0 <= i < |m| && m[i] == Some(r.height.value);
    assert r.height.value == ys[i];
  }
}
