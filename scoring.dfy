/**
 * The four standardized sub-scores of the Vada Perfection Index and their
 * fixed-weight combination VPI-S. Scores are exact reals; the source's
 * floating-point rounding is not modelled.
 */
module Scoring {

  /** `math.pi`. The proofs below use only that it is positive. */
  const Pi: real := 3.141592653589793

  /** The golden-brown fraction of the object that earns a perfect colour score. */
  const IdealGoldenBrownRatio: real := 0.3

  const SizeWeight: real := 0.01
  const ShapeWeight: real := 0.4
  const HoleWeight: real := 0.3
  const ColorWeight: real := 0.29

  /** `S_size = D_avg / width`: enclosing-circle diameter relative to the image width, not clamped to 1. */
  function SizeScore(dAvg: real, width: nat): (s: real)
    requires width > 0
    ensures s * (width as real) == dAvg
    ensures dAvg >= 0.0 ==> s >= 0.0
    ensures s > 1.0 <==> dAvg > width as real
  {
    dAvg / (width as real)
  }

  /**
   * `S_shape`: the isoperimetric ratio `4 * pi * net_area / perimeter^2`
   * (1 for a perfect disc), or 0 when the perimeter is not positive. The
   * body divides by the perimeter twice, which over exact reals is the same
   * quotient; the third postcondition states it against the square.
   */
  function ShapeScore(netArea: int, perimeter: real): (s: real)
    ensures perimeter <= 0.0 ==> s == 0.0
    ensures perimeter > 0.0 ==> s * perimeter * perimeter == 4.0 * Pi * (netArea as real)
    ensures netArea >= 0 ==> s >= 0.0
    ensures perimeter > 0.0 && netArea > 0 ==> s > 0.0
  {
    if perimeter > 0.0 then
      QuotientSign(4.0 * Pi * (netArea as real), perimeter);
      QuotientSign(4.0 * Pi * (netArea as real) / perimeter, perimeter);
      4.0 * Pi * (netArea as real) / perimeter / perimeter
    else 0.0
  }

  lemma QuotientSign(x: real, y: real)
    requires y > 0.0
    ensures x >= 0.0 ==> x / y >= 0.0
    ensures x > 0.0 ==> x / y > 0.0
  {
  }

  /**
   * `S_hole = 1 - D_hole / D_avg`, or 0 when `D_avg` is not positive:
   * the smaller the hole relative to the object, the higher the score.
   */
  function HoleScore(dHole: real, dAvg: real): (s: real)
    ensures dAvg <= 0.0 ==> s == 0.0
    ensures dAvg > 0.0 ==> s * dAvg == dAvg - dHole
    ensures dAvg > 0.0 && dHole >= 0.0 ==> s <= 1.0
    ensures dAvg > 0.0 ==> (s == 1.0 <==> dHole == 0.0)
    ensures dAvg > 0.0 && 0.0 <= dHole <= dAvg ==> s >= 0.0
  {
    if dAvg > 0.0 then 1.0 - dHole / dAvg else 0.0
  }

  /** `rho_gb`: golden-brown pixels per net object pixel, or 0 when the net area is not positive. */
  function GoldenBrownRatio(brownPixels: nat, netArea: int): (rho: real)
    ensures netArea <= 0 ==> rho == 0.0
    ensures netArea > 0 ==> rho * (netArea as real) == brownPixels as real
    ensures rho >= 0.0
    ensures brownPixels <= netArea ==> rho <= 1.0
  {
    if netArea > 0 then (brownPixels as real) / (netArea as real) else 0.0
  }

  function Abs(x: real): real
  {
    if x < 0.0 then -x else x
  }

  /** `S_color = 1 - |0.3 - rho_gb|`: peaks at the ideal ratio and is not clamped below 0. */
  function ColorScore(rho: real): (s: real)
    ensures s <= 1.0
    ensures s == 1.0 <==> rho == IdealGoldenBrownRatio
    ensures 0.0 <= rho <= 1.0 ==> s >= 0.3
    ensures s < 0.0 <==> rho < -0.7 || rho > 1.3
  {
    1.0 - Abs(IdealGoldenBrownRatio - rho)
  }

  /** A ratio closer to the ideal never scores lower. */
  lemma ColorScoreFavoursIdeal(rho1: real, rho2: real)
    requires Abs(IdealGoldenBrownRatio - rho1) <= Abs(IdealGoldenBrownRatio - rho2)
    ensures ColorScore(rho1) >= ColorScore(rho2)
  {
  }

  /**
   * The colour score of a pixel count ratio: 0.7 when the net area is not
   * positive (the ratio falls back to 0), and otherwise at least 0.3
   * exactly when the golden-brown count does not exceed the net area.
   */
  lemma ColorScoreOfCounts(brownPixels: nat, netArea: int)
    ensures netArea <= 0 ==> ColorScore(GoldenBrownRatio(brownPixels, netArea)) == 0.7
    ensures netArea > 0 ==>
      (ColorScore(GoldenBrownRatio(brownPixels, netArea)) >= 0.3 <==> brownPixels <= netArea)
  {
    if netArea > 0 {
      var rho := GoldenBrownRatio(brownPixels, netArea);
      assert ColorScore(rho) >= 0.3 <==> rho <= 1.0;
      RatioAtMostOne(rho, brownPixels as real, netArea as real);
    }
  }

  /** A ratio `b / n` with positive `n` is at most 1 exactly when `b <= n`. */
  lemma RatioAtMostOne(rho: real, b: real, n: real)
    requires n > 0.0 && rho * n == b
    ensures rho <= 1.0 <==> b <= n
  {
  }

  datatype SubScores = SubScores(size: real, shape: real, hole: real, color: real)

  /** VPI-S: `100 * (0.01 S_size + 0.4 S_shape + 0.3 S_hole + 0.29 S_color)`. */
  function Vpi(s: SubScores): (v: real)
    ensures s.size == s.shape == s.hole == s.color ==> v == 100.0 * s.size
  {
    (SizeWeight * s.size + ShapeWeight * s.shape + HoleWeight * s.hole + ColorWeight * s.color) * 100.0
  }

  /** The four weights sum to one. */
  lemma WeightsSumToOne()
    ensures SizeWeight + ShapeWeight + HoleWeight + ColorWeight == 1.0
  {
  }

  /** Perfect sub-scores give exactly 100. */
  lemma VpiOfPerfectScores()
    ensures Vpi(SubScores(1.0, 1.0, 1.0, 1.0)) == 100.0
  {
    WeightsSumToOne();
  }

  /** Sub-scores in [0, 1] give an index in [0, 100]. */
  lemma VpiBounds(s: SubScores)
    requires 0.0 <= s.size <= 1.0 && 0.0 <= s.shape <= 1.0
    requires 0.0 <= s.hole <= 1.0 && 0.0 <= s.color <= 1.0
    ensures 0.0 <= Vpi(s) <= 100.0
  {
    WeightsSumToOne();
  }

  /** Raising any sub-score while the others do not drop never lowers the index. */
  lemma VpiMonotone(s: SubScores, t: SubScores)
    requires s.size <= t.size && s.shape <= t.shape && s.hole <= t.hole && s.color <= t.color
    ensures Vpi(s) <= Vpi(t)
  {
  }

  /**
   * Changing one sub-score by `d` with the others fixed moves the index by
   * exactly `100 * weight * d`: one point per unit of size, 40 of shape,
   * 30 of hole and 29 of colour.
   */
  lemma VpiSensitivity(s: SubScores, d: real)
    ensures Vpi(s.(size := s.size + d)) == Vpi(s) + d
    ensures Vpi(s.(shape := s.shape + d)) == Vpi(s) + 40.0 * d
    ensures Vpi(s.(hole := s.hole + d)) == Vpi(s) + 30.0 * d
    ensures Vpi(s.(color := s.color + d)) == Vpi(s) + 29.0 * d
  {
  }
}
