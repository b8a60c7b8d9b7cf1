/**
 * `ScannerActivity`: its luminosity analyzer, which works out the mean luma
 * of a frame at most once a second, and the turn from the display's surface
 * rotation to the degrees the preview is rotated back by in `updateTransform`.
 */
module ScannerActivity {
  import opened Wrappers
  import opened JavaInt
  import opened Analysis

  /** Android's `Surface.ROTATION_0`, `ROTATION_90`, `ROTATION_180` and `ROTATION_270`. */
  const Rotation0: int := 0
  const Rotation90: int := 1
  const Rotation180: int := 2
  const Rotation270: int := 3

  /**
   * The `when` in `updateTransform`: the display rotation in degrees, `None`
   * where it returns early. Exactly the four surface rotations have an angle,
   * `ROTATION_n` giving `n` degrees, a quarter turn per step.
   */
  function RotationDegrees(rotation: int): (d: Option<int>)
    ensures d.Some? <==> rotation in {Rotation0, Rotation90, Rotation180, Rotation270}
    ensures d.Some? ==> 0 <= d.value < 360 && d.value == 90 * rotation
  {
    if rotation == Rotation0 then Some(0)
    else if rotation == Rotation90 then Some(90)
    else if rotation == Rotation180 then Some(180)
    else if rotation == Rotation270 then Some(270)
    else None
  }

  /** Two rotations that turn the preview by the same angle are the same rotation. */
  lemma RotationDegreesInjective(r1: int, r2: int)
    requires RotationDegrees(r1).Some? && RotationDegrees(r1) == RotationDegrees(r2)
    ensures r1 == r2
  {
  }

  /** `updateTransform`: the angle `matrix.postRotate` is given, `None` when no transform is applied. */
  function TransformAngle(rotation: int): (angle: Option<int>)
    ensures angle.Some? <==> RotationDegrees(rotation).Some?
    ensures angle.Some? ==> angle.value == -RotationDegrees(rotation).value
  {
    match RotationDegrees(rotation)
    case None => None
    case Some(degrees) => Some(-degrees)
  }

  /** The analyzer, with the time of the last analyzed frame. */
  class LuminosityAnalyzer {
    var lastAnalyzedTimestamp: int

    constructor ()
      ensures lastAnalyzedTimestamp == 0
    {
      lastAnalyzedTimestamp := 0;
    }

    /**
     * `analyze`, at time `now`: when a second has passed since the last
     * analyzed frame, the mean luma of this frame's Y plane (which the
     * activity logs) and `now` as the new time of the last analysis;
     * otherwise nothing.
     */
    method Analyze(now: int, plane: seq<JByte>) returns (luma: Option<Mean>)
      modifies this
      ensures Due(now, old(lastAnalyzedTimestamp)) ==> luma == Some(MeanOf(plane)) && lastAnalyzedTimestamp == now
      ensures !Due(now, old(lastAnalyzedTimestamp)) ==> luma == None && lastAnalyzedTimestamp == old(lastAnalyzedTimestamp)
    {
      var currentTimestamp := now;
      luma := None;
      if currentTimestamp - lastAnalyzedTimestamp >= AnalysisInterval {
        luma := Some(MeanOf(plane));
        lastAnalyzedTimestamp := currentTimestamp;
      }
    }
  }
}
