/**
 * `CameraFragment.LuminosityAnalyzer`: keeps the timestamps of the last few
 * frames, newest first, to estimate the frame rate, and at most once a second
 * passes the mean luma of a frame to every registered listener.
 *
 * The clock, `System.currentTimeMillis()`, is the `now` parameter of
 * `Analyze`, and the frame is its Y plane's bytes.
 */
module CameraFragment {
  import opened Wrappers
  import opened JavaInt
  import opened Analysis
  import opened Seqs

  /** `frameRateWindow`: the deque is cut back below this many timestamps. */
  const FrameRateWindow: nat := 8

  /** A registered `LumaListener`, known by its identity. */
  datatype Listener = Listener(id: nat)

  /** One invocation of a listener with a luma value. */
  datatype Call = Call(listener: Listener, luma: Mean)

  /** What `listeners.forEach { it(luma) }` does: one call per listener, in list order, all with the same luma. */
  function CallsTo(listeners: seq<Listener>, luma: Mean): (c: seq<Call>)
    ensures |c| == |listeners|
    ensures forall k :: 0 <= k < |c| ==> c[k] == Call(listeners[k], luma)
  {
    if |listeners| == 0 then [] else CallsTo(listeners[..|listeners| - 1], luma) + [Call(listeners[|listeners| - 1], luma)]
  }

  // ----- Frame rate -----

  /**
   * The frame rate of a window of timestamps, newest first: the number of
   * intervals between them over their span, per second. `None` where the
   * `Double` arithmetic gives no finite value (fewer than two frames, or a
   * zero span).
   */
  function FramesPerSecond(timestamps: seq<int>): (fps: Option<real>)
    requires |timestamps| > 0
    ensures fps.Some? <==> |timestamps| > 1 && timestamps[0] != timestamps[|timestamps| - 1]
  {
    var span := timestamps[0] - timestamps[|timestamps| - 1];
    if |timestamps| == 1 || span == 0 then None
    else Some((|timestamps| - 1) as real * 1000.0 / span as real)
  }

  /**
   * The frame rate as the analyzer computes it: `1 / (span / size) * 1000`,
   * which counts frames rather than the intervals between them.
   */
  function FramesPerSecondAsWritten(timestamps: seq<int>): (fps: Option<real>)
    requires |timestamps| > 0
    ensures fps.Some? <==> timestamps[0] != timestamps[|timestamps| - 1]
  {
    var span := timestamps[0] - timestamps[|timestamps| - 1];
    if span == 0 then None
    else Some(|timestamps| as real * 1000.0 / span as real)
  }

  /** Timestamps, newest first, one frame every `period` milliseconds. */
  ghost predicate EvenlySpaced(timestamps: seq<int>, period: nat) {
    forall k :: 0 <= k < |timestamps| ==> timestamps[k] == timestamps[0] - k * period
  }

  /** Frames arriving every `period` milliseconds are rated at `1000 / period` per second. */
  lemma EvenlySpacedRate(timestamps: seq<int>, period: nat)
    requires |timestamps| > 1 && period > 0 && EvenlySpaced(timestamps, period)
    ensures FramesPerSecond(timestamps) == Some(1000.0 / period as real)
  {
    var n := |timestamps|;
    var span := timestamps[0] - timestamps[n - 1];
    assert span == (n - 1) * period;
    var m := (n - 1) as real;
    var p := period as real;
    assert span as real == m * p;
    assert m * 1000.0 / (m * p) == 1000.0 / p;
  }

  /** Seven frames 100 ms apart are ten frames a second, but the analyzer's formula reports 35/3. */
  lemma AsWrittenOverstatesRate()
    ensures var ts := [600, 500, 400, 300, 200, 100, 0];
      && EvenlySpaced(ts, 100)
      && FramesPerSecond(ts) == Some(10.0)
      && FramesPerSecondAsWritten(ts) == Some(35.0 / 3.0)
  {
    var ts := [600, 500, 400, 300, 200, 100, 0];
    assert ts[0] - ts[6] == 600;
  }

  /**
   * The analyzer: the timestamp window (index 0 is the deque's front, the
   * newest), the listeners, the time of the last analyzed frame, the last
   * frame-rate estimate, and every listener call made so far.
   */
  class LuminosityAnalyzer {
    var frameTimestamps: seq<int>
    var listeners: seq<Listener>
    var lastAnalyzedTimestamp: int
    var framesPerSecond: Option<real>
    var calls: seq<Call>

    /** The window never reaches `frameRateWindow` entries between calls. */
    ghost predicate Valid()
      reads this
    {
      |frameTimestamps| < FrameRateWindow
    }

    /** `LuminosityAnalyzer(listener)`: the optional listener is the first one; nothing analyzed yet. */
    constructor (listener: Option<Listener>)
      ensures listeners == if listener.Some? then [listener.value] else []
      ensures frameTimestamps == [] && lastAnalyzedTimestamp == 0
      ensures framesPerSecond == Some(-1.0) && calls == []
      ensures Valid()
    {
      frameTimestamps := [];
      listeners := if listener.Some? then [listener.value] else [];
      lastAnalyzedTimestamp := 0;
      framesPerSecond := Some(-1.0);
      calls := [];
    }

    /** `onFrameAnalyzed`: appends the listener; `ArrayList.add` always answers `true`. */
    method OnFrameAnalyzed(listener: Listener) returns (added: bool)
      requires Valid()
      modifies this`listeners
      ensures Valid()
      ensures listeners == old(listeners) + [listener] && added
    {
      listeners := listeners + [listener];
      added := true;
    }

    /**
     * `analyze`: with no listeners, nothing at all. Otherwise the frame's
     * time goes to the front of the window, the oldest timestamps leave from
     * the back until fewer than `frameRateWindow` remain, the frame rate is
     * re-estimated with the analyzer's own formula, and when a second has passed since the last analyzed
     * frame every listener gets this frame's luma.
     */
    method Analyze(now: int, plane: seq<JByte>)
      requires Valid()
      modifies this`frameTimestamps, this`lastAnalyzedTimestamp, this`framesPerSecond, this`calls
      ensures Valid()
      ensures |listeners| == 0 ==>
        && frameTimestamps == old(frameTimestamps) && lastAnalyzedTimestamp == old(lastAnalyzedTimestamp)
        && framesPerSecond == old(framesPerSecond) && calls == old(calls)
      ensures |listeners| > 0 ==>
        && 0 < |frameTimestamps| == Min(|old(frameTimestamps)| + 1, FrameRateWindow - 1)
        && frameTimestamps <= [now] + old(frameTimestamps)
        && framesPerSecond == FramesPerSecondAsWritten(frameTimestamps)
      ensures |listeners| > 0 && Due(now, old(lastAnalyzedTimestamp)) ==>
        lastAnalyzedTimestamp == now && calls == old(calls) + CallsTo(listeners, MeanOf(plane))
      ensures |listeners| > 0 && !Due(now, old(lastAnalyzedTimestamp)) ==>
        lastAnalyzedTimestamp == old(lastAnalyzedTimestamp) && calls == old(calls)
    {
      if |listeners| == 0 {
        return;
      }
      frameTimestamps := [now] + frameTimestamps;
      ghost var pushed := frameTimestamps;
      while |frameTimestamps| >= FrameRateWindow
        invariant frameTimestamps <= pushed
        invariant Min(|pushed|, FrameRateWindow - 1) <= |frameTimestamps|
        invariant calls == old(calls) && lastAnalyzedTimestamp == old(lastAnalyzedTimestamp)
        decreases |frameTimestamps|
      {
        frameTimestamps := frameTimestamps[..|frameTimestamps| - 1];
      }
      framesPerSecond := FramesPerSecondAsWritten(frameTimestamps);
      if Due(frameTimestamps[0], lastAnalyzedTimestamp) {
        var luma := MeanOf(plane);
        NotifyListeners(luma);
        lastAnalyzedTimestamp := frameTimestamps[0];
      }
    }

    /** `listeners.forEach { it(luma) }`. */
    method NotifyListeners(luma: Mean)
      requires Valid()
      modifies this`calls
      ensures Valid()
      ensures calls == old(calls) + CallsTo(listeners, luma)
    {
      for i := 0 to |listeners|
        invariant calls == old(calls) + CallsTo(listeners[..i], luma)
      {
        assert listeners[..i + 1][..i] == listeners[..i];
        AppendAssoc(old(calls), CallsTo(listeners[..i], luma), [Call(listeners[i], luma)]);
        calls := calls + [Call(listeners[i], luma)];
      }
      assert listeners[..|listeners|] == listeners;
    }
  }
}
