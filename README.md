# Cubic fan curve of fan-control

This project models the cubic fan-speed curve of the fan-control repository:
`calculate_fan_speed` in `plot_fan_curve.py`. The curve maps a temperature to
a raw PWM value. It starts at `FAN_MIN` at `TEMP_MIN`, grows with the cube of
the distance above `TEMP_MIN`, and is capped at `FAN_MAX`. The script then
turns each raw value into a percentage of full scale (`* 100 / 255`) for every
sampled temperature.

The model is pure, as the source is. It has two modules:

- `RealArith` (`real_arith.dfy`) holds `Min`, which models Python's `min`,
  and `Cube`, which models `** 3`. It also holds small monotonicity and sign
  facts about multiplication, division and cubes over `real`.
- `FanCurve` (`fan_curve.dfy`) holds the curve. `CubicSpeed(temp, b)` is
  written once over a `CurveBounds` value with the invariant
  `tempMin < tempMax && fanMin <= fanMax`. `FanSpeed` instantiates it with
  the script's constants 50, 75, 20 and 255.

Most properties are first proved for a point on the normalised curve
`CubicAt(x, b)`, where `x = (temp - tempMin) / (tempMax - tempMin)`. They are
then carried back to temperatures by `CubicSpeedByPosition`.

The code has no lower floor, and the model follows the code. The repository
describes the curve as returning `fanMin` for every temperature at or below
`tempMin`, but `calculate_fan_speed` has no such branch. Below `TEMP_MIN`,
`temp_diff ** 3` is negative, so the result falls below `FAN_MIN`. The only
clamp is the upper one, `min(speed, FAN_MAX)`. `FanCurve.CubicSpeedBelowFanMinIff`
and `FanCurve.FanSpeedNoFloor` state this behaviour.

The percentage divides by the literal 255 (`MaxRawSpeed`), not by `FAN_MAX`.
With the script's constants the two are equal, which is what makes the
percentage exactly 100 at 75 degrees.

## Model

| member | source | states |
|---|---|---|
| FanCurve.CubicSpeed | plot_fan_curve.py:14-25 | the curve, for any valid bounds, never exceeds fanMax, because of the cap `min(speed, FAN_MAX)` |
| FanCurve.CubicSpeedByPosition | plot_fan_curve.py:15-22 | the curve at a temperature equals the cube of its relative position in [tempMin, tempMax], scaled to the speed range, plus fanMin, capped at fanMax |
| FanCurve.CubicSpeedAtTempMin | plot_fan_curve.py:15-25 | at tempMin the curve gives exactly fanMin |
| FanCurve.CubicSpeedAtOrAboveTempMax | plot_fan_curve.py:20-25 | at and above tempMax the curve gives exactly fanMax |
| FanCurve.CubicSpeedMonotone | plot_fan_curve.py:14-25 | the curve is non-decreasing in the temperature, for all temperatures |
| FanCurve.CubicSpeedInRange | plot_fan_curve.py:14-25 | on [tempMin, tempMax] the curve stays within [fanMin, fanMax] |
| FanCurve.CubicSpeedBelowFanMinIff | plot_fan_curve.py:15-25 | with fanMin < fanMax, the curve is below fanMin if and only if the temperature is below tempMin (there is no lower clamp) |
| FanCurve.CubicSpeedReachesFanMaxIff | plot_fan_curve.py:20-25 | with fanMin < fanMax, the curve equals fanMax if and only if the temperature is at or above tempMax |
| FanCurve.CubicSpeedAtOrBelowLinear | plot_fan_curve.py:19-22 | on [tempMin, tempMax] the cubic curve lies at or below the linear ramp from (tempMin, fanMin) to (tempMax, fanMax), and strictly below it inside the range |
| FanCurve.FanSpeed | plot_fan_curve.py:5-8 | the curve with the script's constants never exceeds 255 |
| FanCurve.FanSpeedAtTempMin | plot_fan_curve.py:5-25 | the script's curve gives exactly 20 at 50 degrees |
| FanCurve.FanSpeedAtTempMax | plot_fan_curve.py:5-25 | the script's curve gives exactly 255 at 75 degrees |
| FanCurve.FanSpeedNoFloor | plot_fan_curve.py:15-25 | below 50 degrees the script's curve is below 20 |
| FanCurve.FanSpeedMidpoint | plot_fan_curve.py:5-25 | at 62.5 degrees the script's curve gives 49.375, strictly between 20 and the linear ramp's 137.5 |
| FanCurve.Percent | plot_fan_curve.py:28 | the percentage of a raw value, scaled back by 255/100, recovers the raw value; it is 100 exactly when the raw value is 255 |
| FanCurve.PercentMonotone | plot_fan_curve.py:28 | the percentage conversion keeps the order of raw values |
| FanCurve.FanPercentAtTempMax | plot_fan_curve.py:28 | the script's percentage is exactly 100 at 75 degrees |
| FanCurve.FanSpeedPercentInRange | plot_fan_curve.py:28 | for temperatures in [50, 75] the script's percentage lies in [20 * 100 / 255, 100] |
| FanCurve.FanSpeedPercents | plot_fan_curve.py:28 | the list of percentages has one entry per sampled temperature, in order, each the percentage of the curve at that temperature |
| FanCurve.FanSpeedPercentsSortedInRange | plot_fan_curve.py:11-28 | for temperatures sampled in increasing order within [50, 75], the list of percentages is non-decreasing and every entry lies in [20 * 100 / 255, 100] |

## Left out

- `plot_custom_curve.py` is not part of this model. It reads a CSV file, computes rolling means and draws a figure, so it is I/O and plotting through library calls.
- The plotting and file output in `plot_fan_curve.py:31-54` (figure, axes, annotations, saving the image) are not modelled.
- `np.linspace` (`plot_fan_curve.py:11`) is not modelled. The sampled temperatures are arbitrary reals in [50, 75] in increasing order, which evenly spaced points are.
- Floating-point rounding is not modelled. All arithmetic is over exact reals, so the exact values stated, such as 49.375 at 62.5 degrees and exactly 100 at 75 degrees, hold for the real-number curve. They do not necessarily hold for IEEE-754 doubles.
- The fan controller's loop, hysteresis state, sensor aggregation and PWM writes are not modelled. No code for them is among the files modelled here.
