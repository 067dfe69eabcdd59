/** The cubic fan-speed curve of plot_fan_curve.py and the conversion of its
    raw PWM value to a percentage, over exact real arithmetic.

    The curve is written once for arbitrary bounds (CubicSpeed) and then
    instantiated with the script's constants (FanSpeed). Its properties are
    proved on the curve as a function of the position of the temperature in
    [tempMin, tempMax] (CubicAt) and carried back to temperatures through
    CubicSpeedByPosition. */
module FanCurve {
  import opened RealArith

  /** The four bounds of the curve: a control-temperature range in degrees
      and a commanded-speed range in raw PWM units. */
  datatype CurveBounds = CurveBounds(tempMin: real, tempMax: real, fanMin: real, fanMax: real)
  {
    /** A non-empty temperature range and a speed range that is not reversed. */
    predicate Valid() {
      tempMin < tempMax && fanMin <= fanMax
    }

    function TempRange(): real {
      tempMax - tempMin
    }

    function FanRange(): real {
      fanMax - fanMin
    }
  }

  /** The script's constants: 50 and 75 degrees, 20 and 255 PWM. */
  const TempMin: real := 50.0
  const TempMax: real := 75.0
  const FanMin: real := 20.0
  const FanMax: real := 255.0
  const ScriptBounds: CurveBounds := CurveBounds(TempMin, TempMax, FanMin, FanMax)

  /** Full scale of a raw PWM value; the percentage conversion divides by it. */
  const MaxRawSpeed: real := 255.0

  /** The cubic curve: the speed rises from fanMin with the cube of the
      distance above tempMin, scaled so that tempMax gives fanMax, and is
      capped at fanMax. There is no lower cap. */
  function CubicSpeed(temp: real, b: CurveBounds): (r: real)
    requires b.Valid()
    ensures r <= b.fanMax
  {
    var tempDiff := temp - b.tempMin;
    var rangeTemp := b.TempRange();
    var fanRange := b.FanRange();
    var tempFactor := Cube(tempDiff);
    var rangeFactor := Cube(rangeTemp);
    CubeSign(rangeTemp);
    var speed := b.fanMin + tempFactor * fanRange / rangeFactor;
    Min(speed, b.fanMax)
  }

  /** The straight line through (tempMin, fanMin) and (tempMax, fanMax): the
      reference the cubic curve is compared with. */
  function LinearSpeed(temp: real, b: CurveBounds): (r: real)
    requires b.Valid()
    ensures temp == b.tempMin ==> r == b.fanMin
    ensures temp == b.tempMax ==> r == b.fanMax
  {
    b.fanMin + (temp - b.tempMin) * b.FanRange() / b.TempRange()
  }

  /** Where a temperature sits relative to [tempMin, tempMax], as a
      fraction: 0 at tempMin, 1 at tempMax. */
  function Position(temp: real, b: CurveBounds): real
    requires b.Valid()
  {
    (temp - b.tempMin) / b.TempRange()
  }

  /** The cubic curve at a position: fanMin plus the cube of the position
      times the speed range, capped at fanMax. */
  function CubicAt(x: real, b: CurveBounds): real {
    Min(b.fanMin + Cube(x) * b.FanRange(), b.fanMax)
  }

  /** The linear ramp at a position. */
  function LinearAt(x: real, b: CurveBounds): real {
    b.fanMin + x * b.FanRange()
  }

  /** The position is below 0 exactly below tempMin, 0 exactly at tempMin,
      and below 1 exactly below tempMax. */
  lemma PositionOrder(temp: real, b: CurveBounds)
    requires b.Valid()
    ensures Position(temp, b) < 0.0 <==> temp < b.tempMin
    ensures Position(temp, b) == 0.0 <==> temp == b.tempMin
    ensures Position(temp, b) < 1.0 <==> temp < b.tempMax
  {
    DivSign(temp - b.tempMin, b.TempRange());
    DivBelowOne(temp - b.tempMin, b.TempRange());
  }

  /** The position is non-decreasing in the temperature. */
  lemma PositionMonotone(t1: real, t2: real, b: CurveBounds)
    requires b.Valid() && t1 <= t2
    ensures Position(t1, b) <= Position(t2, b)
  {
    DivMonotone(t1 - b.tempMin, t2 - b.tempMin, b.TempRange());
  }

  /** The cubic curve at a temperature is the cubic curve at its position. */
  lemma CubicSpeedByPosition(temp: real, b: CurveBounds)
    requires b.Valid()
    ensures CubicSpeed(temp, b) == CubicAt(Position(temp, b), b)
  {
    var rangeTemp := b.TempRange();
    var x := Position(temp, b);
    CubeSign(rangeTemp);
    assert temp - b.tempMin == x * rangeTemp;
    CubeOfProduct(x, rangeTemp);
    MulDivCancel(Cube(x), Cube(rangeTemp), b.FanRange());
  }

  /** The linear ramp at a temperature is the linear ramp at its position. */
  lemma LinearSpeedByPosition(temp: real, b: CurveBounds)
    requires b.Valid()
    ensures LinearSpeed(temp, b) == LinearAt(Position(temp, b), b)
  {
    MulDivRegroup(temp - b.tempMin, b.FanRange(), b.TempRange());
  }

  /** At position 0 the curve is fanMin. */
  lemma CubicAtZero(b: CurveBounds)
    requires b.Valid()
    ensures CubicAt(0.0, b) == b.fanMin
  {
    CubeSign(0.0);
    MinCases(b.fanMin, b.fanMax);
  }

  /** From position 1 on the curve is fanMax. */
  lemma CubicAtFromOne(x: real, b: CurveBounds)
    requires b.Valid() && 1.0 <= x
    ensures CubicAt(x, b) == b.fanMax
  {
    CubeMonotone(1.0, x);
    assert Cube(1.0) == 1.0;
    MulMonotone(1.0, Cube(x), b.FanRange());
    assert 1.0 * b.FanRange() == b.FanRange();
    MinCases(b.fanMin + Cube(x) * b.FanRange(), b.fanMax);
  }

  /** The curve is non-decreasing in the position. */
  lemma CubicAtMonotone(x1: real, x2: real, b: CurveBounds)
    requires b.Valid() && x1 <= x2
    ensures CubicAt(x1, b) <= CubicAt(x2, b)
  {
    CubeMonotone(x1, x2);
    MulMonotone(Cube(x1), Cube(x2), b.FanRange());
    MinMonotone(b.fanMin + Cube(x1) * b.FanRange(), b.fanMin + Cube(x2) * b.FanRange(), b.fanMax);
  }

  /** With a non-degenerate speed range the curve is below fanMax exactly
      below position 1. */
  lemma CubicAtBelowFanMax(x: real, b: CurveBounds)
    requires b.Valid() && b.fanMin < b.fanMax
    ensures CubicAt(x, b) < b.fanMax <==> x < 1.0
  {
    if x < 1.0 {
      var fanRange := b.FanRange();
      var term := Cube(x) * fanRange;
      CubeStrictlyIncreasing(x, 1.0);
      assert Cube(1.0) == 1.0;
      ScaleBelowOne(Cube(x), fanRange);
      assert fanRange == b.fanMax - b.fanMin;
      MinCases(b.fanMin + term, b.fanMax);
      assert CubicAt(x, b) == Min(b.fanMin + term, b.fanMax);
    } else {
      CubicAtFromOne(x, b);
    }
  }

  /** With a non-degenerate speed range the curve is below fanMin exactly
      below position 0. */
  lemma CubicAtBelowFanMin(x: real, b: CurveBounds)
    requires b.Valid() && b.fanMin < b.fanMax
    ensures CubicAt(x, b) < b.fanMin <==> x < 0.0
  {
    var fanRange := b.FanRange();
    var term := Cube(x) * fanRange;
    CubeSign(x);
    if x < 0.0 {
      MulStrictlyMonotone(Cube(x), 0.0, fanRange);
      assert 0.0 * fanRange == 0.0;
      assert term < 0.0;
    } else {
      MulMonotone(0.0, Cube(x), fanRange);
      assert 0.0 * fanRange == 0.0;
      assert 0.0 <= term;
    }
    MinCases(b.fanMin + term, b.fanMax);
  }

  /** On [0, 1] the cubic curve is at or below the linear ramp, strictly
      inside (0, 1) when the speed range is non-degenerate. */
  lemma CubicAtBelowLinearAt(x: real, b: CurveBounds)
    requires b.Valid() && 0.0 <= x <= 1.0
    ensures CubicAt(x, b) <= LinearAt(x, b)
    ensures 0.0 < x < 1.0 && b.fanMin < b.fanMax ==> CubicAt(x, b) < LinearAt(x, b)
  {
    CubeBelowIdentityOnUnit(x);
    MinCases(b.fanMin + Cube(x) * b.FanRange(), b.fanMax);
    if 0.0 < x < 1.0 && b.fanMin < b.fanMax {
      MulStrictlyMonotone(Cube(x), x, b.FanRange());
    } else {
      MulMonotone(Cube(x), x, b.FanRange());
    }
  }

  /** At the lower temperature bound the curve gives exactly fanMin. */
  lemma CubicSpeedAtTempMin(b: CurveBounds)
    requires b.Valid()
    ensures CubicSpeed(b.tempMin, b) == b.fanMin
  {
    PositionOrder(b.tempMin, b);
    CubicAtZero(b);
    CubicSpeedByPosition(b.tempMin, b);
  }

  /** At and above the upper temperature bound the curve gives exactly
      fanMax: the cubic term reaches the whole speed range and the cap holds
      it there. */
  lemma CubicSpeedAtOrAboveTempMax(temp: real, b: CurveBounds)
    requires b.Valid() && b.tempMax <= temp
    ensures CubicSpeed(temp, b) == b.fanMax
  {
    PositionOrder(temp, b);
    CubicAtFromOne(Position(temp, b), b);
    CubicSpeedByPosition(temp, b);
  }

  /** The curve is non-decreasing in the temperature. */
  lemma CubicSpeedMonotone(t1: real, t2: real, b: CurveBounds)
    requires b.Valid() && t1 <= t2
    ensures CubicSpeed(t1, b) <= CubicSpeed(t2, b)
  {
    PositionMonotone(t1, t2, b);
    CubicAtMonotone(Position(t1, b), Position(t2, b), b);
    CubicSpeedByPosition(t1, b);
    CubicSpeedByPosition(t2, b);
  }

  /** Over the sampled range [tempMin, tempMax] the curve stays within
      [fanMin, fanMax]. */
  lemma CubicSpeedInRange(temp: real, b: CurveBounds)
    requires b.Valid() && b.tempMin <= temp <= b.tempMax
    ensures b.fanMin <= CubicSpeed(temp, b) <= b.fanMax
  {
    CubicSpeedAtTempMin(b);
    CubicSpeedMonotone(b.tempMin, temp, b);
  }

  /** With a non-degenerate speed range the curve falls below fanMin exactly
      for temperatures below tempMin: the cubic term is negative there and
      nothing raises it back. */
  lemma CubicSpeedBelowFanMinIff(temp: real, b: CurveBounds)
    requires b.Valid() && b.fanMin < b.fanMax
    ensures CubicSpeed(temp, b) < b.fanMin <==> temp < b.tempMin
  {
    PositionOrder(temp, b);
    CubicAtBelowFanMin(Position(temp, b), b);
    CubicSpeedByPosition(temp, b);
  }

  /** With a non-degenerate speed range the curve reaches fanMax exactly at
      and above tempMax. */
  lemma CubicSpeedReachesFanMaxIff(temp: real, b: CurveBounds)
    requires b.Valid() && b.fanMin < b.fanMax
    ensures CubicSpeed(temp, b) == b.fanMax <==> b.tempMax <= temp
  {
    PositionOrder(temp, b);
    CubicAtBelowFanMax(Position(temp, b), b);
    CubicSpeedByPosition(temp, b);
  }

  /** Over [tempMin, tempMax] the cubic curve lies at or below the linear
      ramp, and strictly below it inside the range when the speed range is
      non-degenerate: the response stays quiet near tempMin. */
  lemma CubicSpeedAtOrBelowLinear(temp: real, b: CurveBounds)
    requires b.Valid() && b.tempMin <= temp <= b.tempMax
    ensures CubicSpeed(temp, b) <= LinearSpeed(temp, b)
    ensures b.tempMin < temp < b.tempMax && b.fanMin < b.fanMax ==>
              CubicSpeed(temp, b) < LinearSpeed(temp, b)
  {
    PositionOrder(temp, b);
    CubicAtBelowLinearAt(Position(temp, b), b);
    CubicSpeedByPosition(temp, b);
    LinearSpeedByPosition(temp, b);
  }

  /** The curve with the script's constants. */
  function FanSpeed(temp: real): (r: real)
    ensures r <= FanMax
  {
    CubicSpeed(temp, ScriptBounds)
  }

  /** A raw PWM value as a percentage of full scale; scaling back by the
      full scale recovers the raw value. */
  function Percent(speed: real): (r: real)
    ensures r * MaxRawSpeed / 100.0 == speed
    ensures speed == MaxRawSpeed <==> r == 100.0
  {
    speed * 100.0 / MaxRawSpeed
  }

  /** The percentage conversion keeps the order of raw values. */
  lemma PercentMonotone(s1: real, s2: real)
    requires s1 <= s2
    ensures Percent(s1) <= Percent(s2)
  {
  }

  /** The curve's percentage for every sampled temperature, in order. */
  function FanSpeedPercents(temps: seq<real>): (r: seq<real>)
    ensures |r| == |temps|
    ensures forall i :: 0 <= i < |temps| ==> r[i] == Percent(FanSpeed(temps[i]))
  {
    if temps == [] then [] else [Percent(FanSpeed(temps[0]))] + FanSpeedPercents(temps[1..])
  }

  /** The script's curve hits exactly 20 at 50 degrees. */
  lemma FanSpeedAtTempMin()
    ensures FanSpeed(TempMin) == FanMin
  {
    CubicSpeedAtTempMin(ScriptBounds);
  }

  /** The script's curve hits exactly 255 at 75 degrees. */
  lemma FanSpeedAtTempMax()
    ensures FanSpeed(TempMax) == FanMax
  {
    CubicSpeedAtOrAboveTempMax(TempMax, ScriptBounds);
  }

  /** So the script's percentage reaches exactly 100 at 75 degrees. */
  lemma FanPercentAtTempMax()
    ensures Percent(FanSpeed(TempMax)) == 100.0
  {
    FanSpeedAtTempMax();
  }

  /** Below 50 degrees the script's curve drops under 20: there is no floor. */
  lemma FanSpeedNoFloor(temp: real)
    requires temp < TempMin
    ensures FanSpeed(temp) < FanMin
  {
    CubicSpeedBelowFanMinIff(temp, ScriptBounds);
  }

  /** Half way through the range (62.5 degrees) the script's curve gives
      49.375, well above 20 and far below the 137.5 of a linear ramp. */
  lemma FanSpeedMidpoint()
    ensures FanSpeed(62.5) == 49.375
    ensures FanMin < FanSpeed(62.5) < LinearSpeed(62.5, ScriptBounds)
    ensures LinearSpeed(62.5, ScriptBounds) == 137.5
  {
    assert Position(62.5, ScriptBounds) == 0.5;
    assert Cube(0.5) == 0.125;
    CubicSpeedByPosition(62.5, ScriptBounds);
    LinearSpeedByPosition(62.5, ScriptBounds);
  }

  /** Over the sampled range the script's percentage lies between
      20 * 100 / 255 and 100. */
  lemma FanSpeedPercentInRange(temp: real)
    requires TempMin <= temp <= TempMax
    ensures Percent(FanMin) <= Percent(FanSpeed(temp)) <= 100.0
  {
    CubicSpeedInRange(temp, ScriptBounds);
    PercentMonotone(FanMin, FanSpeed(temp));
    PercentMonotone(FanSpeed(temp), FanMax);
  }

  predicate Sorted(s: seq<real>) {
    forall i, j :: 0 <= i < j < |s| ==> s[i] <= s[j]
  }

  /** Temperatures sampled in increasing order, as the evenly spaced points
      over [50, 75] are, give a non-decreasing list of percentages, each in
      [20 * 100 / 255, 100]. */
  lemma FanSpeedPercentsSortedInRange(temps: seq<real>)
    requires Sorted(temps)
    requires forall i :: 0 <= i < |temps| ==> TempMin <= temps[i] <= TempMax
    ensures Sorted(FanSpeedPercents(temps))
    ensures forall i :: 0 <= i < |temps| ==>
              Percent(FanMin) <= FanSpeedPercents(temps)[i] <= 100.0
  {
    var r := FanSpeedPercents(temps);
    forall i, j | 0 <= i < j < |r|
      ensures r[i] <= r[j]
    {
      CubicSpeedMonotone(temps[i], temps[j], ScriptBounds);
      PercentMonotone(FanSpeed(temps[i]), FanSpeed(temps[j]));
    }
    forall i | 0 <= i < |temps|
      ensures Percent(FanMin) <= r[i] <= 100.0
    {
      FanSpeedPercentInRange(temps[i]);
    }
  }
}
