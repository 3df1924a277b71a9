/*
 * The layer fan percentage of MatterSliceLib/LayerGCodePlanner.cs
 * (`GetFanPercent`): off below the first fan layer and for slow layers,
 * full speed when the full-speed threshold is the larger one, and otherwise
 * a linear ramp between the minimum and maximum percentages, truncated to
 * an integer. Layer times are reals; double rounding is not modelled.
 */
module FanControl {

  /** The slicer settings `GetFanPercent` reads. */
  datatype FanSettings = FanSettings(
    firstLayerToAllowFan: int,
    minFanSpeedLayerTime: real,
    maxFanSpeedLayerTime: real,
    fanSpeedMinPercent: int,
    fanSpeedMaxPercent: int)

  function MaxReal(a: real, b: real): real
  {
    if a < b then b else a
  }

  function MinReal(a: real, b: real): real
  {
    if a < b then a else b
  }

  /** A cast of a real to an integer: the fraction is dropped, rounding toward zero. */
  function TruncToInt(x: real): (r: int)
    ensures 0.0 <= x ==> r as real <= x < r as real + 1.0
    ensures x < 0.0 ==> r as real - 1.0 < x <= r as real
  {
    if x >= 0.0 then x.Floor else -((-x).Floor)
  }

  /** The layer time below which the fan starts: the larger of the two thresholds. */
  function FanOnLayerTime(s: FanSettings): real
  {
    MaxReal(s.minFanSpeedLayerTime, s.maxFanSpeedLayerTime)
  }

  /** The fraction of the way from the minimum to the maximum percentage. */
  function RampRatio(s: FanSettings, layerTime: real): (r: real)
    ensures 0.0 <= r <= 1.0
  {
    var threshold := FanOnLayerTime(s);
    var amountSmallerThanMin := MaxReal(0.0, threshold - layerTime);
    var timeToMax := MaxReal(0.0, threshold - s.maxFanSpeedLayerTime);
    if timeToMax > 0.0 then MinReal(1.0, amountSmallerThanMin / timeToMax) else 0.0
  }

  /** The percentage a fraction of the way up the ramp: the minimum plus the truncated share of the span. */
  function RampPercent(s: FanSettings, ratio: real): int
  {
    s.fanSpeedMinPercent + ScaledShare(ratio, s.fanSpeedMaxPercent - s.fanSpeedMinPercent)
  }

  /** `(int)(ratio * span)`: the share of the span, truncated toward zero. */
  function ScaledShare(ratio: real, span: int): int
  {
    TruncToInt(ratio * span as real)
  }

  /** `GetFanPercent`: the fan percentage a layer of the given index and duration asks for. */
  function FanPercent(s: FanSettings, layerIndex: int, layerTime: real): int
  {
    if layerIndex < s.firstLayerToAllowFan then
      0
    else if layerTime < FanOnLayerTime(s) then
      if s.maxFanSpeedLayerTime >= FanOnLayerTime(s) then
        s.fanSpeedMaxPercent
      else
        RampPercent(s, RampRatio(s, layerTime))
    else
      0
  }

  /**
   * The branch facts: no fan below the first fan layer, none for a layer at
   * least as slow as the larger threshold, and the maximum when the
   * full-speed threshold is the larger one and the layer is faster.
   */
  lemma FanPercentBranches(s: FanSettings, layerIndex: int, layerTime: real)
    ensures layerIndex < s.firstLayerToAllowFan ==> FanPercent(s, layerIndex, layerTime) == 0
    ensures layerTime >= MaxReal(s.minFanSpeedLayerTime, s.maxFanSpeedLayerTime) ==> FanPercent(s, layerIndex, layerTime) == 0
    ensures (layerIndex >= s.firstLayerToAllowFan && s.maxFanSpeedLayerTime >= s.minFanSpeedLayerTime &&
      layerTime < s.maxFanSpeedLayerTime) ==> FanPercent(s, layerIndex, layerTime) == s.fanSpeedMaxPercent
  {
  }

  /** The share of a non-negative span at a fraction r lands between 0 and the span. */
  lemma ScaledShareBounds(r: real, d: int)
    requires 0.0 <= r <= 1.0 && 0 <= d
    ensures 0 <= ScaledShare(r, d) <= d
  {
    ScaleMonotone(0.0, r, d as real);
    ScaleMonotone(r, 1.0, d as real);
    var x := r * d as real;
    assert 0.0 <= x <= d as real;
  }

  /** Along the ramp the percentage stays between the minimum and the maximum. */
  lemma RampPercentBounds(s: FanSettings, ratio: real)
    requires 0.0 <= ratio <= 1.0 && s.fanSpeedMinPercent <= s.fanSpeedMaxPercent
    ensures s.fanSpeedMinPercent <= RampPercent(s, ratio) <= s.fanSpeedMaxPercent
  {
    ScaledShareBounds(ratio, s.fanSpeedMaxPercent - s.fanSpeedMinPercent);
  }

  /** Further up the ramp, the percentage is no smaller. */
  lemma RampPercentMonotone(s: FanSettings, lower: real, higher: real)
    requires 0.0 <= lower <= higher && s.fanSpeedMinPercent <= s.fanSpeedMaxPercent
    ensures RampPercent(s, lower) <= RampPercent(s, higher)
  {
    ScaledShareMonotone(lower, higher, s.fanSpeedMaxPercent - s.fanSpeedMinPercent);
  }

  /** With the percentages in order, a layer's percentage is 0 or within them. */
  lemma FanPercentWithinBounds(s: FanSettings, layerIndex: int, layerTime: real)
    requires s.fanSpeedMinPercent <= s.fanSpeedMaxPercent
    ensures var p := FanPercent(s, layerIndex, layerTime);
      p == 0 || s.fanSpeedMinPercent <= p <= s.fanSpeedMaxPercent
  {
    RampPercentBounds(s, RampRatio(s, layerTime));
  }

  /** The ramp fraction grows as the layer gets faster. */
  lemma RampRatioAntitone(s: FanSettings, faster: real, slower: real)
    requires faster <= slower
    ensures RampRatio(s, slower) <= RampRatio(s, faster)
  {
    var threshold := FanOnLayerTime(s);
    var timeToMax := MaxReal(0.0, threshold - s.maxFanSpeedLayerTime);
    if timeToMax > 0.0 {
      var a := MaxReal(0.0, threshold - slower);
      var b := MaxReal(0.0, threshold - faster);
      assert a <= b;
      DivideMonotone(a, b, timeToMax);
    }
  }

  lemma DivideMonotone(a: real, b: real, c: real)
    requires a <= b && c > 0.0
    ensures a / c <= b / c
  {
    assert b / c - a / c == (b - a) / c;
  }

  lemma TruncMonotone(x: real, y: real)
    requires 0.0 <= x <= y
    ensures TruncToInt(x) <= TruncToInt(y)
  {
  }

  lemma ScaleMonotone(a: real, b: real, d: real)
    requires a <= b && 0.0 <= d
    ensures a * d <= b * d
  {
  }

  /** A larger fraction of a non-negative span gives no smaller share. */
  lemma ScaledShareMonotone(a: real, b: real, d: int)
    requires 0.0 <= a <= b && 0 <= d
    ensures ScaledShare(a, d) <= ScaledShare(b, d)
  {
    var span := d as real;
    var x, y := a * span, b * span;
    assert 0.0 <= x <= y by {
      ScaleMonotone(a, b, span);
      ScaleMonotone(0.0, a, span);
    }
    TruncMonotone(x, y);
  }

  /**
   * A slower layer never gets more fan: with 0 <= minimum <= maximum
   * percentage, the percentage does not increase with the layer time.
   */
  lemma FanPercentAntitone(s: FanSettings, layerIndex: int, faster: real, slower: real)
    requires faster <= slower
    requires 0 <= s.fanSpeedMinPercent <= s.fanSpeedMaxPercent
    ensures FanPercent(s, layerIndex, slower) <= FanPercent(s, layerIndex, faster)
  {
    var threshold := FanOnLayerTime(s);
    if layerIndex < s.firstLayerToAllowFan {
    } else if slower >= threshold {
      FanPercentWithinBounds(s, layerIndex, faster);
    } else if s.maxFanSpeedLayerTime >= threshold {
    } else {
      RampRatioAntitone(s, faster, slower);
      RampPercentMonotone(s, RampRatio(s, slower), RampRatio(s, faster));
    }
  }
}
