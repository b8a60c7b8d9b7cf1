/**
 * What both luminosity analyzers compute from the Y plane of a frame: the
 * mean of its bytes read as unsigned values, and the once-a-second rule that
 * decides whether a frame is analyzed at all.
 *
 * The mean is kept exact, as a sum and a count, where the application uses
 * Kotlin's `Double` `average()`.
 */
module Analysis {
  import opened Wrappers
  import opened JavaInt

  /** `TimeUnit.SECONDS.toMillis(1)`: the least gap between two analyzed frames, in milliseconds. */
  const AnalysisInterval: int := 1000

  /** A frame is analyzed when at least a second has passed since the last analyzed one. */
  predicate Due(now: int, lastAnalyzed: int) {
    now - lastAnalyzed >= AnalysisInterval
  }

  /** An exact mean: the sum of the values and how many there are. */
  datatype Mean = Mean(sum: nat, count: nat)

  /** The sum of `b and 0xFF` over the plane's bytes. */
  function UnsignedSum(data: seq<JByte>): (s: nat)
    ensures s <= 255 * |data|
  {
    if |data| == 0 then 0 else UnsignedSum(data[..|data| - 1]) + Unsigned(data[|data| - 1])
  }

  /** `data.map { it.toInt() and 0xFF }.average()`, before the division. */
  function MeanOf(data: seq<JByte>): (m: Mean)
    ensures m.count == |data| && m.sum <= 255 * m.count
  {
    Mean(UnsignedSum(data), |data|)
  }

  /** The value of a mean; `None` for the empty plane, whose `average()` is `NaN`. */
  function Value(m: Mean): (v: Option<real>)
    ensures v.Some? <==> m.count > 0
  {
    if m.count == 0 then None else Some(m.sum as real / m.count as real)
  }

  /** The luma of a non-empty plane lies in `[0, 255]`. */
  lemma MeanInRange(data: seq<JByte>)
    requires |data| > 0
    ensures Value(MeanOf(data)).Some?
    ensures 0.0 <= Value(MeanOf(data)).value <= 255.0
  {
    var m := MeanOf(data);
    var n := m.count as real;
    assert m.sum as real <= 255.0 * n;
    assert m.sum as real / n <= 255.0 * n / n;
  }

  /** The sum over two pieces of a plane is the sum of the two sums. */
  lemma {:induction false} UnsignedSumAppend(a: seq<JByte>, b: seq<JByte>)
    ensures UnsignedSum(a + b) == UnsignedSum(a) + UnsignedSum(b)
    decreases |b|
  {
    if |b| > 0 {
      var b' := b[..|b| - 1];
      assert (a + b)[..|a + b| - 1] == a + b';
      assert (a + b)[|a + b| - 1] == b[|b| - 1];
      UnsignedSumAppend(a, b');
    } else {
      assert a + b == a;
    }
  }

  /** A plane of one repeated byte sums to that byte's unsigned value times its length. */
  lemma {:induction false} UnsignedSumConstant(n: nat, b: JByte)
    ensures UnsignedSum(seq(n, _ => b)) == n * Unsigned(b)
  {
    if n > 0 {
      var s := seq(n, _ => b);
      assert s[..n - 1] == seq(n - 1, _ => b);
      UnsignedSumConstant(n - 1, b);
    }
  }

  /**
   * The luma of a uniform plane is its byte read as unsigned: 0 for an all-zero
   * plane, 255 for a plane of `0xFF` bytes (which Java stores as -1).
   */
  lemma UniformPlane(n: nat, b: JByte)
    requires n > 0
    ensures Value(MeanOf(seq(n, _ => b))) == Some(Unsigned(b) as real)
  {
    UnsignedSumConstant(n, b);
    var u := Unsigned(b) as real;
    assert (n * Unsigned(b)) as real == n as real * u;
    assert n as real * u / n as real == u;
  }

  /** Bytes with the sign bit set count as the large half of the range: `[0, -1]` averages to 127.5. */
  lemma SignedBytesReadUnsigned()
    ensures Value(MeanOf([0, -1])) == Some(127.5)
  {
    assert [0, -1][..1] == [0];
    assert [0][..0] == [];
  }
}
