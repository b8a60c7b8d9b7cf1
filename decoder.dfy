/**
 * `Decoder`: the viewfinder square on screen and its image in preview
 * coordinates (each computed once and then cached), the luminance source cut
 * out of a preview frame, and the order in which a frame is handed to the QR
 * reader: the cropped source, its inversion, the whole frame, its inversion.
 *
 * The reader itself is a parameter: a total function from a source to the
 * symbol it finds, with `None` standing for a `ReaderException`.
 */
module Decoder {
  import opened Wrappers
  import opened JavaInt
  import opened Rects
  import opened Seqs

  /** A decoded barcode (ZXing's `Result`), reduced to its text. */
  datatype Symbol = Symbol(text: string)

  /**
   * A `PlanarYUVLuminanceSource`: the frame bytes and size, the crop given
   * by its left and top edges, width and height, and whether `invert()`
   * has been applied to it.
   */
  datatype Source = Source(data: seq<JByte>, dataWidth: int, dataHeight: int,
                           left: int, top: int, width: int, height: int, inverted: bool)

  /** `LuminanceSource.invert()`: the same pixels with the inversion flag flipped. */
  function Invert(s: Source): (t: Source)
    ensures t.inverted != s.inverted && t.(inverted := s.inverted) == s
  {
    s.(inverted := !s.inverted)
  }

  /** Inverting twice gives the original source back. */
  lemma InvertTwice(s: Source)
    ensures Invert(Invert(s)) == s
  {
  }

  /**
   * `QRCodeReader.decode` with the decoder's hints, as the sources it decodes
   * and the symbol it finds in each; any other source raises a `ReaderException`.
   */
  type Reader = imap<Source, Symbol>

  /** One decode attempt: the symbol, or `None` for a `ReaderException`. */
  function Read(reader: Reader, s: Source): (r: Option<Symbol>)
    ensures r.Some? <==> s in reader
    ensures r.Some? ==> r.value == reader[s]
  {
    if s in reader then Some(reader[s]) else None
  }

  /** What the decoder does with the reader: a decode attempt, or `reset()`. */
  datatype Event = Attempt(source: Source) | Reset

  // ----- The fallback order -----

  /** The symbol of the first source in `sources` the reader decodes, if there is one. */
  function FirstSuccess(reader: Reader, sources: seq<Source>): Option<Symbol> {
    if |sources| == 0 then None
    else if Read(reader, sources[0]).Some? then Read(reader, sources[0])
    else FirstSuccess(reader, sources[1..])
  }

  /** The sources a fallback over `sources` hands to the reader: all up to and including the first success. */
  function Tried(reader: Reader, sources: seq<Source>): (t: seq<Source>)
    ensures |t| <= |sources|
  {
    if |sources| == 0 then []
    else if Read(reader, sources[0]).Some? then [sources[0]]
    else [sources[0]] + Tried(reader, sources[1..])
  }

  /** Every attempt is followed by a `reset()` of the reader, as the `finally` blocks do. */
  function AttemptEvents(sources: seq<Source>): (e: seq<Event>)
    ensures |e| == 2 * |sources|
  {
    if |sources| == 0 then [] else [Attempt(sources[0]), Reset] + AttemptEvents(sources[1..])
  }

  /** Event `2k` is the attempt on source `k`, and the reset comes right after it. */
  lemma {:induction false} AttemptEventsOrder(sources: seq<Source>)
    ensures forall k :: 0 <= k < |sources| ==>
      AttemptEvents(sources)[2 * k] == Attempt(sources[k]) && AttemptEvents(sources)[2 * k + 1] == Reset
  {
    if |sources| > 0 {
      AttemptEventsOrder(sources[1..]);
    }
  }

  /** What `decodeBySource` tries for a nullable source: nothing, or the source and then its inversion. */
  function Pair(source: Option<Source>): (p: seq<Source>)
    ensures |p| == if source.Some? then 2 else 0
  {
    if source.Some? then [source.value, Invert(source.value)] else []
  }

  /** A nullable result as the list of `onResult` calls it causes. */
  function Delivered(r: Option<Symbol>): (d: seq<Symbol>)
    ensures |d| <= 1
  {
    if r.Some? then [r.value] else []
  }

  /** The fallback finds a symbol exactly when some source decodes. */
  lemma {:induction false} FirstSuccessSpec(reader: Reader, sources: seq<Source>)
    ensures FirstSuccess(reader, sources).None? <==> forall k :: 0 <= k < |sources| ==> Read(reader, sources[k]).None?
  {
    if |sources| > 0 && Read(reader, sources[0]).None? {
      var rest := sources[1..];
      FirstSuccessSpec(reader, rest);
      assert forall k :: 1 <= k < |sources| ==> sources[k] == rest[k - 1];
    }
  }

  /**
   * A fallback that finds nothing tries every source. One that finds a
   * symbol stops at the source it came from, and every source tried before
   * that one failed.
   */
  lemma {:induction false} TriedSpec(reader: Reader, sources: seq<Source>)
    ensures FirstSuccess(reader, sources).None? ==> Tried(reader, sources) == sources
    ensures FirstSuccess(reader, sources).Some? ==>
      var t := Tried(reader, sources);
      0 < |t| && Read(reader, t[|t| - 1]) == FirstSuccess(reader, sources)
      && forall k :: 0 <= k < |t| - 1 ==> Read(reader, t[k]).None?
  {
    if |sources| > 0 && Read(reader, sources[0]).None? {
      var rest := sources[1..];
      TriedSpec(reader, rest);
      var t := Tried(reader, sources);
      assert t == [sources[0]] + Tried(reader, rest);
      assert forall k :: 1 <= k < |t| ==> t[k] == Tried(reader, rest)[k - 1];
      if FirstSuccess(reader, rest).None? {
        assert t == [sources[0]] + rest;
      }
    }
  }

  /** A fallback over `a + b` finds what the fallback over `a` finds or, when that finds nothing, what the one over `b` finds. */
  lemma {:induction false} FirstSuccessAppend(reader: Reader, a: seq<Source>, b: seq<Source>)
    ensures FirstSuccess(reader, a + b) == if FirstSuccess(reader, a).Some? then FirstSuccess(reader, a) else FirstSuccess(reader, b)
  {
    if |a| > 0 {
      assert (a + b)[0] == a[0];
      assert (a + b)[1..] == a[1..] + b;
      FirstSuccessAppend(reader, a[1..], b);
    } else {
      assert a + b == b;
    }
  }

  /** A fallback over `a + b` tries the sources the one over `a` tries and, when those all fail, the ones over `b`. */
  lemma {:induction false} TriedAppend(reader: Reader, a: seq<Source>, b: seq<Source>)
    ensures Tried(reader, a + b) == Tried(reader, a) + if FirstSuccess(reader, a).Some? then [] else Tried(reader, b)
  {
    if |a| > 0 {
      var rest := a[1..];
      assert (a + b)[0] == a[0];
      assert (a + b)[1..] == rest + b;
      if Read(reader, a[0]).None? {
        TriedAppend(reader, rest, b);
        var more := if FirstSuccess(reader, rest).Some? then [] else Tried(reader, b);
        assert Tried(reader, a + b) == [a[0]] + (Tried(reader, rest) + more);
        AppendAssoc([a[0]], Tried(reader, rest), more);
      }
    } else {
      assert a + b == b;
    }
  }

  /** Both halves of the fallback over `a + b`. */
  lemma FallbackAppend(reader: Reader, a: seq<Source>, b: seq<Source>)
    ensures FirstSuccess(reader, a + b) == if FirstSuccess(reader, a).Some? then FirstSuccess(reader, a) else FirstSuccess(reader, b)
    ensures Tried(reader, a + b) == Tried(reader, a) + if FirstSuccess(reader, a).Some? then [] else Tried(reader, b)
  {
    FirstSuccessAppend(reader, a, b);
    TriedAppend(reader, a, b);
  }

  /** The events of two runs of attempts follow one another. */
  lemma {:induction false} AttemptEventsAppend(a: seq<Source>, b: seq<Source>)
    ensures AttemptEvents(a + b) == AttemptEvents(a) + AttemptEvents(b)
  {
    if |a| > 0 {
      assert (a + b)[0] == a[0];
      assert (a + b)[1..] == a[1..] + b;
      AttemptEventsAppend(a[1..], b);
    } else {
      assert a + b == b;
    }
  }

  /** The full preview frame, uncropped: `new PlanarYUVLuminanceSource(data, width, height, 0, 0, width, height, false)`. */
  function FullFrame(data: seq<JByte>, width: int, height: int): Source {
    Source(data, width, height, 0, 0, width, height, false)
  }

  /** The four sources `decode` may try, in order: the crop, its inversion, the whole frame, its inversion. */
  function Candidates(crop: Option<Source>, full: Source): seq<Source> {
    Pair(crop) + Pair(Some(full))
  }

  /**
   * The whole frame is handed to the reader only once the cropped source and
   * its inversion have both failed, and it is then the third source tried.
   */
  lemma FullFrameOnlyAfterCrop(reader: Reader, crop: Source, full: Source)
    ensures var t := Tried(reader, Candidates(Some(crop), full));
      (|t| > 2 <==> Read(reader, crop).None? && Read(reader, Invert(crop)).None?)
      && (|t| > 2 ==> t[2] == full)
  {
    FallbackAppend(reader, Pair(Some(crop)), Pair(Some(full)));
    var p := Pair(Some(crop));
    assert p[1..] == [Invert(crop)];
    assert Tried(reader, p) == if Read(reader, crop).Some? then [crop] else [crop] + Tried(reader, [Invert(crop)]);
    assert FirstSuccess(reader, p) == if Read(reader, crop).Some? then Read(reader, crop) else FirstSuccess(reader, [Invert(crop)]);
    assert [Invert(crop)][1..] == [];
  }

  /** A frame with a crop finds a symbol exactly when one of its four candidate sources decodes. */
  lemma DecodeFindsIff(reader: Reader, crop: Option<Source>, full: Source)
    ensures var c := Candidates(crop, full);
      (|Delivered(FirstSuccess(reader, c))| == 1 <==> exists k :: 0 <= k < |c| && Read(reader, c[k]).Some?)
  {
    FirstSuccessSpec(reader, Candidates(crop, full));
  }

  // ----- Framing geometry -----

  /**
   * `getFramingRect`: a square `screenX * 5 / 8` on a side, offset by half the
   * spare width and half the spare height, each halved with Java's truncating
   * division.
   */
  function FramingRect(screenX: int, screenY: int): Rect {
    var side := Quot(screenX * 5, 8);
    var left := Quot(screenX - side, 2);
    var top := Quot(screenY - side, 2);
    Rect(left, top, left + side, top + side)
  }

  /**
   * The framing rect is a square of side `5 / 8` of the screen width, lies
   * inside the screen horizontally, and has margins that differ by at most
   * one pixel. When the screen is shorter than the square, the square reaches
   * or overhangs both edges, and since the top offset is truncated toward
   * zero it overhangs the top by no more than the bottom.
   */
  lemma FramingRectShape(screenX: int, screenY: int)
    requires screenX >= 0
    ensures var r := FramingRect(screenX, screenY);
      && r.Width() == r.Height() == Quot(screenX * 5, 8)
      && 0 <= r.left && r.right <= screenX && 0 <= (screenX - r.right) - r.left <= 1
      && (r.Height() <= screenY ==> 0 <= r.top && r.bottom <= screenY && 0 <= (screenY - r.bottom) - r.top <= 1)
      && (r.Height() > screenY ==> r.top <= 0 && screenY <= r.bottom && -1 <= (screenY - r.bottom) - r.top <= 0)
  {
    var side := Quot(screenX * 5, 8);
    assert 0 <= side <= screenX;
    var d := screenY - side;
    if d < 0 {
      assert Quot(d, 2) == -((-d) / 2);
    }
  }

  /**
   * `getFramingRectInPreview`: each edge of `r` scaled from screen to
   * preview coordinates, `edge * camera / screen` with Java's `int` division.
   */
  function PreviewRect(r: Rect, cameraX: int, cameraY: int, screenX: int, screenY: int): Rect
    requires screenX != 0 && screenY != 0
  {
    Rect(Quot(r.left * cameraX, screenX), Quot(r.top * cameraY, screenY),
         Quot(r.right * cameraX, screenX), Quot(r.bottom * cameraY, screenY))
  }

  /** A rect inside the screen scales to a rect inside the preview frame. */
  lemma PreviewWithin(r: Rect, cameraX: int, cameraY: int, screenX: int, screenY: int)
    requires screenX > 0 && screenY > 0 && cameraX >= 0 && cameraY >= 0
    requires r.Within(screenX, screenY)
    ensures PreviewRect(r, cameraX, cameraY, screenX, screenY).Within(cameraX, cameraY)
  {
    ScaleWithin(r.left, r.right, cameraX, screenX);
    ScaleWithin(r.top, r.bottom, cameraY, screenY);
  }

  /** `0 <= a <= b <= s` scaled by `c / s` stays ordered and inside `[0, c]`. */
  lemma ScaleWithin(a: int, b: int, c: int, s: int)
    requires 0 <= a <= b <= s && c >= 0 && s > 0
    ensures 0 <= Quot(a * c, s) <= Quot(b * c, s) <= c
  {
    MulMonotone(a, b, c);
    MulMonotone(b, s, c);
    DivMonotone(a * c, b * c, s);
    DivMonotone(b * c, s * c, s);
    assert (s * c) / s == c;
  }

  lemma DivMonotone(a: int, b: int, s: int)
    requires 0 <= a <= b && s > 0
    ensures 0 <= a / s <= b / s
  {
    QuotientOrder(a, b, s, a / s, b / s, a % s, b % s);
  }

  /** Division with remainder by the same divisor keeps the order of the dividends. */
  lemma QuotientOrder(a: int, b: int, s: int, qa: int, qb: int, ra: int, rb: int)
    requires a == qa * s + ra && 0 <= ra < s
    requires b == qb * s + rb && 0 <= rb < s
    requires a <= b
    ensures qa <= qb
  {
    assert (qb + 1) * s == qb * s + s;
    if qa > qb {
      MulMonotone(qb + 1, qa, s);
    }
  }

  /** The viewfinder in preview coordinates: the cached one, or the framing rect scaled to this frame. */
  function CachedPreview(cache: Option<Rect>, screenX: int, screenY: int, width: int, height: int): Rect
    requires cache.Some? || (screenX != 0 && screenY != 0)
  {
    if cache.Some? then cache.value else PreviewRect(FramingRect(screenX, screenY), width, height, screenX, screenY)
  }

  /** `buildLuminanceSource`: the frame cropped to the preview rect. */
  function CropSource(data: seq<JByte>, width: int, height: int, rect: Rect): Source {
    Source(data, width, height, rect.left, rect.top, rect.Width(), rect.Height(), false)
  }

  /**
   * The decoder object: the screen resolution it was built with, the reader,
   * the two cached rects, and, as what it does to the world, the reader's
   * attempts and resets and the results passed to `onResultListener`.
   */
  class Decoder {
    const screenX: int
    const screenY: int
    const reader: Reader
    var framingRect: Option<Rect>
    var framingRectInPreview: Option<Rect>
    var readerEvents: seq<Event>
    var delivered: seq<Symbol>

    /** The cached framing rect, once there, is the one `FramingRect` describes. */
    ghost predicate Valid()
      reads this
    {
      framingRect.Some? ==> framingRect.value == FramingRect(screenX, screenY)
    }

    /** `Decoder(resolution, onResultListener)`: nothing computed and nothing decoded yet. */
    constructor (resolutionWidth: int, resolutionHeight: int, qrReader: Reader)
      ensures screenX == resolutionWidth && screenY == resolutionHeight && reader == qrReader
      ensures framingRect.None? && framingRectInPreview.None?
      ensures readerEvents == [] && delivered == []
      ensures Valid()
    {
      screenX, screenY := resolutionWidth, resolutionHeight;
      reader := qrReader;
      framingRect, framingRectInPreview := None, None;
      readerEvents, delivered := [], [];
    }

    /** `getFramingRect`: computed on the first call, the cached rect afterwards. */
    method GetFramingRect() returns (r: Rect)
      requires Valid()
      modifies this`framingRect
      ensures Valid()
      ensures r == FramingRect(screenX, screenY) && framingRect == Some(r)
      ensures old(framingRect).Some? ==> framingRect == old(framingRect)
    {
      if framingRect.None? {
        var width := Quot(screenX * 5, 8);
        var height := width;
        var leftOffset := Quot(screenX - width, 2);
        var topOffset := Quot(screenY - height, 2);
        framingRect := Some(Rect(leftOffset, topOffset, leftOffset + width, topOffset + height));
      }
      r := framingRect.value;
    }

    /**
     * `getFramingRectInPreview`: computed from the framing rect and this
     * frame's size on the first call; every later call returns that first
     * rect, whatever size it is given. The `null` branch of the source never
     * fires, since `getFramingRect` always returns a rect.
     */
    method GetFramingRectInPreview(width: int, height: int) returns (r: Option<Rect>)
      requires Valid()
      requires framingRectInPreview.None? ==> screenX != 0 && screenY != 0
      modifies this`framingRect, this`framingRectInPreview
      ensures Valid()
      ensures r == framingRectInPreview
        == Some(CachedPreview(old(framingRectInPreview), screenX, screenY, width, height))
      ensures old(framingRectInPreview).Some? ==> framingRect == old(framingRect)
      ensures old(framingRectInPreview).None? ==> framingRect == Some(FramingRect(screenX, screenY))
    {
      if framingRectInPreview.None? {
        var screenRect := GetFramingRect();
        var rect := screenRect;
        rect := rect.(left := Quot(rect.left * width, screenX));
        rect := rect.(right := Quot(rect.right * width, screenX));
        rect := rect.(top := Quot(rect.top * height, screenY));
        rect := rect.(bottom := Quot(rect.bottom * height, screenY));
        framingRectInPreview := Some(rect);
      }
      r := framingRectInPreview;
    }

    /**
     * `buildLuminanceSource`: the frame cropped to the preview rect, or
     * `None` when there is no preview rect (which never happens).
     */
    method BuildLuminanceSource(data: seq<JByte>, width: int, height: int) returns (s: Option<Source>)
      requires Valid()
      requires framingRectInPreview.None? ==> screenX != 0 && screenY != 0
      modifies this`framingRect, this`framingRectInPreview
      ensures Valid()
      ensures framingRectInPreview == Some(CachedPreview(old(framingRectInPreview), screenX, screenY, width, height))
      ensures s == Some(CropSource(data, width, height, framingRectInPreview.value))
      ensures old(framingRectInPreview).Some? ==> framingRect == old(framingRect)
      ensures old(framingRectInPreview).None? ==> framingRect == Some(FramingRect(screenX, screenY))
    {
      var rect := GetFramingRectInPreview(width, height);
      if rect.None? {
        return None;
      }
      s := Some(Source(data, width, height, rect.value.left, rect.value.top, rect.value.Width(), rect.value.Height(), false));
    }

    /**
     * `decodeBySource`: nothing for a `null` source; otherwise the source,
     * and when that fails its inversion, each attempt followed by a reset.
     */
    method DecodeBySource(source: Option<Source>) returns (r: Option<Symbol>)
      requires Valid()
      modifies this`readerEvents
      ensures Valid()
      ensures r == FirstSuccess(reader, Pair(source))
      ensures readerEvents == old(readerEvents) + AttemptEvents(Tried(reader, Pair(source)))
    {
      r := None;
      if source.Some? {
        var s := source.value;
        r := Read(reader, s);
        readerEvents := readerEvents + [Attempt(s), Reset];
        if r.None? {
          var invertedSource := Invert(s);
          r := Read(reader, invertedSource);
          readerEvents := readerEvents + [Attempt(invertedSource), Reset];
          OnePair(reader, s);
        }
      }
    }

    /**
     * `decode(data, width, height)`: the cropped source and then, when it
     * yields nothing, the whole frame; a symbol found by either is passed to
     * the listener once.
     */
    method Decode(data: seq<JByte>, width: int, height: int)
      requires Valid()
      requires framingRectInPreview.None? ==> screenX != 0 && screenY != 0
      modifies this
      ensures Valid()
      ensures framingRectInPreview == Some(CachedPreview(old(framingRectInPreview), screenX, screenY, width, height))
      ensures old(framingRectInPreview).Some? ==> framingRect == old(framingRect)
      ensures old(framingRectInPreview).None? ==> framingRect == Some(FramingRect(screenX, screenY))
      ensures var c := Candidates(Some(CropSource(data, width, height, framingRectInPreview.value)), FullFrame(data, width, height));
        && readerEvents == old(readerEvents) + AttemptEvents(Tried(reader, c))
        && delivered == old(delivered) + Delivered(FirstSuccess(reader, c))
    {
      var source := BuildLuminanceSource(data, width, height);
      DecodeWithFallback(source, data, width, height);
    }

    /**
     * The rest of `decode` once the cropped source is built: that source,
     * then the whole frame when it yields nothing, then the listener.
     */
    method DecodeWithFallback(source: Option<Source>, data: seq<JByte>, width: int, height: int)
      requires Valid()
      modifies this`readerEvents, this`delivered
      ensures Valid()
      ensures var c := Pair(source) + Pair(Some(FullFrame(data, width, height)));
        && readerEvents == old(readerEvents) + AttemptEvents(Tried(reader, c))
        && delivered == old(delivered) + Delivered(FirstSuccess(reader, c))
    {
      ghost var crop := Pair(source);
      ghost var full := Pair(Some(FullFrame(data, width, height)));
      FallbackEvents(reader, crop, full);
      var rawResult := DecodeBySource(source);
      if rawResult.None? {
        var fullFrame := Some(FullFrame(data, width, height));
        rawResult := DecodeBySource(fullFrame);
        AppendAssoc(old(readerEvents), AttemptEvents(Tried(reader, crop)), AttemptEvents(Tried(reader, full)));
      } else {
        assert AttemptEvents(Tried(reader, crop)) + [] == AttemptEvents(Tried(reader, crop));
      }
      if rawResult.Some? {
        delivered := delivered + [rawResult.value];
      }
    }
  }

  /** The attempts of a fallback over `a + b`: those over `a` and, when they find nothing, those over `b`. */
  lemma FallbackEvents(reader: Reader, a: seq<Source>, b: seq<Source>)
    ensures FirstSuccess(reader, a + b) == if FirstSuccess(reader, a).Some? then FirstSuccess(reader, a) else FirstSuccess(reader, b)
    ensures AttemptEvents(Tried(reader, a + b))
      == AttemptEvents(Tried(reader, a)) + if FirstSuccess(reader, a).Some? then [] else AttemptEvents(Tried(reader, b))
  {
    FallbackAppend(reader, a, b);
    if FirstSuccess(reader, a).Some? {
      assert Tried(reader, a) + [] == Tried(reader, a);
    } else {
      AttemptEventsAppend(Tried(reader, a), Tried(reader, b));
    }
  }

  /** The fallback over a source and its inversion, when the source itself fails. */
  lemma OnePair(reader: Reader, s: Source)
    requires Read(reader, s).None?
    ensures FirstSuccess(reader, Pair(Some(s))) == Read(reader, Invert(s))
    ensures Tried(reader, Pair(Some(s))) == [s, Invert(s)]
  {
    var p := Pair(Some(s));
    assert p[1..] == [Invert(s)];
    assert [Invert(s)][1..] == [];
    assert FirstSuccess(reader, [Invert(s)]) == Read(reader, Invert(s));
  }
}
