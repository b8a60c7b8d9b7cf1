/**
 * `ImageDecoder`: the RGB to NV21 (YUV420SP) encoder behind `getYUV420sp`, the
 * static output buffer it reuses, the centred crop of `cropImage` and the
 * sample-size choice of `calculateInSampleSize`.
 *
 * An NV21 frame of `w x h` pixels is a plane of `w * h` luma bytes followed by
 * interleaved V,U pairs, one pair for every pixel whose column and row are both
 * even, in raster order.
 */
module ImageDecoder {
  import opened JavaInt
  import opened Rects

  /** One entry of `Bitmap.getPixels`: a 32-bit ARGB word. */
  type Argb = bv32

  /** Bits 16 to 23 of the word: `(argb & 0xff0000) >> 16`. */
  function Red(c: Argb): (r: int)
    ensures 0 <= r < 256
  {
    ((c & 0xff0000) >> 16) as int
  }

  /** Bits 8 to 15 of the word: `(argb & 0xff00) >> 8`. */
  function Green(c: Argb): (g: int)
    ensures 0 <= g < 256
  {
    ((c & 0xff00) >> 8) as int
  }

  /** Bits 0 to 7 of the word: `argb & 0xff`. Alpha, bits 24 to 31, is never read. */
  function Blue(c: Argb): (b: int)
    ensures 0 <= b < 256
  {
    (c & 0xff) as int
  }

  /** The colour channels do not depend on the alpha byte: replacing bits 24 to 31 changes none of them. */
  lemma ChannelsIgnoreAlpha(c: Argb, alpha: Argb)
    ensures var d := (c & 0x00ff_ffff) | (alpha << 24);
      Red(d) == Red(c) && Green(d) == Green(c) && Blue(d) == Blue(c)
  {
  }

  /** `Math.max(0, Math.min(v, 255))`. */
  function Clamp(v: int): (c: int)
    ensures 0 <= c <= 255
    ensures 0 <= v <= 255 ==> c == v
  {
    if v < 0 then 0 else if v > 255 then 255 else v
  }

  // The integer colour equations of the encoder, before clamping. Java's `>> 8`
  // on a possibly negative `int` is floor division by 256, which is what Dafny's
  // `/` by a positive divisor computes.

  function RawLuma(r: int, g: int, b: int): int {
    ((66 * r + 129 * g + 25 * b + 128) / 256) + 16
  }

  function RawChromaU(r: int, g: int, b: int): int {
    ((-38 * r - 74 * g + 112 * b + 128) / 256) + 128
  }

  function RawChromaV(r: int, g: int, b: int): int {
    ((112 * r - 94 * g - 18 * b + 128) / 256) + 128
  }

  /** The clamped Y of one pixel. */
  function Luma(c: Argb): (y: int)
    ensures 0 <= y <= 255
  {
    Clamp(RawLuma(Red(c), Green(c), Blue(c)))
  }

  /** The clamped U (Cb) of one pixel. */
  function ChromaU(c: Argb): (u: int)
    ensures 0 <= u <= 255
  {
    Clamp(RawChromaU(Red(c), Green(c), Blue(c)))
  }

  /** The clamped V (Cr) of one pixel. */
  function ChromaV(c: Argb): (v: int)
    ensures 0 <= v <= 255
  {
    Clamp(RawChromaV(Red(c), Green(c), Blue(c)))
  }

  /**
   * On 8-bit channels the equations already land in the studio ranges 16..235
   * and 16..240, so the clamps never change a value.
   */
  lemma ClampsAreInactive(c: Argb)
    ensures 16 <= Luma(c) <= 235 && Luma(c) == RawLuma(Red(c), Green(c), Blue(c))
    ensures 16 <= ChromaU(c) <= 240 && ChromaU(c) == RawChromaU(Red(c), Green(c), Blue(c))
    ensures 16 <= ChromaV(c) <= 240 && ChromaV(c) == RawChromaV(Red(c), Green(c), Blue(c))
  {
    RawRanges(Red(c), Green(c), Blue(c));
  }

  lemma RawRanges(r: int, g: int, b: int)
    requires 0 <= r < 256 && 0 <= g < 256 && 0 <= b < 256
    ensures 16 <= RawLuma(r, g, b) <= 235
    ensures 16 <= RawChromaU(r, g, b) <= 240
    ensures 16 <= RawChromaV(r, g, b) <= 240
  {
  }

  // ----- Index arithmetic of the NV21 layout -----

  /**
   * `n * k` as `n` additions of `k`. Row offsets and plane sizes are written
   * with it so that the proofs about cursors stay linear; `TimesIsProduct`
   * ties it to the product the encoder computes.
   */
  function Times(n: nat, k: nat): nat {
    if n == 0 then 0 else Times(n - 1, k) + k
  }

  lemma {:induction false} TimesIsProduct(n: nat, k: nat)
    ensures Times(n, k) == n * k
  {
    if n > 0 {
      TimesIsProduct(n - 1, k);
      assert (n - 1) * k + k == n * k;
    }
  }

  lemma {:induction false} TimesMonotone(a: nat, b: nat, k: nat)
    requires a <= b
    ensures Times(a, k) <= Times(b, k)
    decreases b
  {
    if a < b {
      TimesMonotone(a, b - 1, k);
    }
  }

  /** The number of even indices below `n`, that is `ceil(n / 2)`. */
  function HalfUp(n: nat): nat {
    (n + 1) / 2
  }

  /**
   * The number of chroma sites (both coordinates even) that come before pixel
   * `(i, j)` in raster order, for a row width of `w`.
   */
  function ChromaRank(w: nat, j: nat, i: nat): nat {
    Times(HalfUp(j), HalfUp(w)) + (if j % 2 == 0 then HalfUp(i) else 0)
  }

  /** The number of chroma sites in a `w x h` frame: `ceil(w / 2) * ceil(h / 2)`. */
  function ChromaSites(w: nat, h: nat): nat {
    Times(HalfUp(h), HalfUp(w))
  }

  /** The number of bytes the encoder writes for a `w x h` frame. */
  function WrittenLength(w: nat, h: nat): nat {
    Times(h, w) + 2 * ChromaSites(w, h)
  }

  /** The encoder writes `w * h` luma bytes and two bytes per chroma site. */
  lemma WrittenLengthFormula(w: nat, h: nat)
    ensures WrittenLength(w, h) == w * h + 2 * (HalfUp(w) * HalfUp(h))
  {
    TimesIsProduct(h, w);
    TimesIsProduct(HalfUp(h), HalfUp(w));
  }

  /** Pixel `(i, j)` of a row `w` wide lies inside a frame `h` rows high. */
  lemma RasterIndexBound(w: nat, h: nat, j: nat, i: nat)
    requires j < h && i <= w
    ensures Times(j, w) + i <= Times(h, w)
  {
    TimesMonotone(j + 1, h, w);
  }

  /** Moving one pixel along a row passes one more chroma site exactly when the pixel is one. */
  lemma ChromaRankStep(w: nat, j: nat, i: nat)
    ensures ChromaRank(w, j, i + 1) == ChromaRank(w, j, i) + (if j % 2 == 0 && i % 2 == 0 then 1 else 0)
  {
  }

  /** A position up to the first pixel after the frame has all its chroma slots inside it. */
  lemma ChromaRankBound(w: nat, h: nat, j: nat, i: nat)
    requires i <= w && (j < h || (j == h && i == 0))
    ensures ChromaRank(w, j, i) <= ChromaSites(w, h)
  {
    var cw := HalfUp(w);
    if j < h {
      if j % 2 == 0 {
        assert HalfUp(i) <= cw;
        TimesMonotone(HalfUp(j) + 1, HalfUp(h), cw);
      } else {
        TimesMonotone(HalfUp(j), HalfUp(h), cw);
      }
    }
  }

  /** A chroma site inside the frame has a whole V,U slot inside the chroma area. */
  lemma ChromaSlotBound(w: nat, h: nat, j: nat, i: nat)
    requires j < h && i < w && j % 2 == 0 && i % 2 == 0
    ensures ChromaRank(w, j, i) + 1 <= ChromaSites(w, h)
  {
    var cw := HalfUp(w);
    assert ChromaRank(w, j, i) == Times(j / 2, cw) + i / 2;
    assert i / 2 + 1 <= cw;
    TimesMonotone(j / 2 + 1, HalfUp(h), cw);
  }

  /** Every position up to the first pixel after the frame has its Y and V,U cursors inside the output. */
  lemma PositionBound(w: nat, h: nat, j: nat, i: nat)
    requires i <= w && (j < h || (j == h && i == 0))
    ensures Times(j, w) + i <= Times(h, w)
    ensures ChromaRank(w, j, i) <= ChromaSites(w, h)
  {
    if j < h {
      RasterIndexBound(w, h, j, i);
    }
    ChromaRankBound(w, h, j, i);
  }

  /** Pixel `(0, j)` follows pixel `(w, j - 1)`, the end of the row before. */
  lemma RowStart(w: nat, j: nat)
    requires j > 0
    ensures Times(j - 1, w) + w == Times(j, w)
    ensures ChromaRank(w, j, 0) == ChromaRank(w, j - 1, w)
  {
    if j % 2 == 1 {
      assert HalfUp(j) == HalfUp(j - 1) + 1;
    } else {
      assert HalfUp(j) == HalfUp(j - 1);
    }
  }

  // ----- What the encoder writes -----

  /** The luma plane: the clamped Y of the first `n` pixels, each cast with `(byte)`. */
  function LumaPlane(argb: seq<Argb>, n: nat): (p: seq<JByte>)
    requires n <= |argb|
  {
    seq(n, k requires 0 <= k < n => ToJByte(Luma(argb[k])))
  }

  /** The V,U bytes a pixel contributes: a pair at a chroma site, nothing elsewhere. */
  function PixelChroma(c: Argb, site: bool): (extra: seq<JByte>)
    ensures |extra| == if site then 2 else 0
  {
    if site then [ToJByte(ChromaV(c)), ToJByte(ChromaU(c))] else []
  }

  /**
   * The V,U bytes the encoder has written once it reaches pixel `(i, j)`: a
   * V,U pair for each chroma site before it in raster order.
   */
  function VuBytes(argb: seq<Argb>, w: nat, j: nat, i: nat): (vu: seq<JByte>)
    requires i <= w && Times(j, w) + i <= |argb|
    ensures |vu| == 2 * ChromaRank(w, j, i)
    decreases j, i
  {
    if i == 0 then
      if j == 0 then []
      else
        RowStart(w, j);
        VuBytes(argb, w, j - 1, w)
    else
      var c := argb[Times(j, w) + i - 1];
      ChromaRankStep(w, j, i - 1);
      VuBytes(argb, w, j, i - 1) + PixelChroma(c, j % 2 == 0 && (i - 1) % 2 == 0)
  }

  /** Pixel `(i, j)` adds its V,U pair when it is a chroma site and nothing otherwise. */
  lemma VuBytesStep(argb: seq<Argb>, w: nat, j: nat, i: nat, c: Argb, site: bool)
    requires i < w && Times(j, w) + i < |argb|
    requires c == argb[Times(j, w) + i] && site == (j % 2 == 0 && i % 2 == 0)
    ensures VuBytes(argb, w, j, i + 1) == VuBytes(argb, w, j, i) + PixelChroma(c, site)
  {
  }

  /** The whole NV21 output for a `w x h` frame: the Y plane, then the V,U pairs. */
  function Encoded(argb: seq<Argb>, w: nat, h: nat): (e: seq<JByte>)
    requires |argb| == w * h
    ensures |e| == WrittenLength(w, h) == w * h + 2 * (HalfUp(w) * HalfUp(h))
  {
    TimesIsProduct(h, w);
    WrittenLengthFormula(w, h);
    LumaPlane(argb, w * h) + VuBytes(argb, w, h, 0)
  }

  /** The bytes written later extend, and never change, the bytes written earlier. */
  lemma {:induction false} VuBytesPrefix(argb: seq<Argb>, w: nat, j1: nat, i1: nat, j2: nat, i2: nat)
    requires i1 <= w && i2 <= w && Times(j2, w) + i2 <= |argb|
    requires j1 < j2 || (j1 == j2 && i1 <= i2)
    ensures Times(j1, w) + i1 <= |argb|
    ensures VuBytes(argb, w, j1, i1) <= VuBytes(argb, w, j2, i2)
    decreases j2, i2
  {
    if j1 == j2 && i1 == i2 {
    } else if i2 == 0 {
      RowStart(w, j2);
      VuBytesPrefix(argb, w, j1, i1, j2 - 1, w);
    } else {
      VuBytesPrefix(argb, w, j1, i1, j2, i2 - 1);
    }
  }

  /**
   * The Y of the pixel with raster index `k` (row `k / w`, column `k % w` in
   * the order `Bitmap.getPixels` fills `argb`) is stored at index `k`.
   */
  lemma LumaAt(argb: seq<Argb>, w: nat, h: nat, k: nat)
    requires |argb| == w * h && k < w * h
    ensures Encoded(argb, w, h)[k] == ToJByte(Luma(argb[k]))
    ensures Unsigned(Encoded(argb, w, h)[k]) == Luma(argb[k])
  {
    TimesIsProduct(h, w);
    assert Encoded(argb, w, h) == LumaPlane(argb, w * h) + VuBytes(argb, w, h, 0);
    UnsignedOfToJByte(Luma(argb[k]));
  }

  /** The V,U pair of a chroma site `(i, j)` is pair number `ChromaRank(w, j, i)` of the chroma bytes. */
  lemma ChromaInVuBytes(argb: seq<Argb>, w: nat, h: nat, i: nat, j: nat)
    requires |argb| == Times(h, w) && i < w && j < h && i % 2 == 0 && j % 2 == 0
    ensures Times(j, w) + i < |argb|
    ensures 2 * ChromaRank(w, j, i) + 1 < |VuBytes(argb, w, h, 0)|
    ensures VuBytes(argb, w, h, 0)[2 * ChromaRank(w, j, i)] == ToJByte(ChromaV(argb[Times(j, w) + i]))
    ensures VuBytes(argb, w, h, 0)[2 * ChromaRank(w, j, i) + 1] == ToJByte(ChromaU(argb[Times(j, w) + i]))
  {
    RasterIndexBound(w, h, j, i + 1);
    SitePairPrefix(argb, w, h, i, j);
    PairInPrefix(VuBytes(argb, w, j, i), VuBytes(argb, w, j, i + 1), VuBytes(argb, w, h, 0), 2 * ChromaRank(w, j, i), argb[Times(j, w) + i]);
  }

  /** The chroma written up to and including a site ends with that site's pair and is a prefix of all chroma. */
  lemma SitePairPrefix(argb: seq<Argb>, w: nat, h: nat, i: nat, j: nat)
    requires |argb| == Times(h, w) && i < w && j < h && i % 2 == 0 && j % 2 == 0
    ensures Times(j, w) + i < |argb|
    ensures VuBytes(argb, w, j, i + 1) == VuBytes(argb, w, j, i) + PixelChroma(argb[Times(j, w) + i], true)
    ensures VuBytes(argb, w, j, i + 1) <= VuBytes(argb, w, h, 0)
  {
    RasterIndexBound(w, h, j, i + 1);
    VuBytesStep(argb, w, j, i, argb[Times(j, w) + i], true);
    VuBytesPrefix(argb, w, j, i + 1, h, 0);
  }

  /** A pair appended to `s` sits at `|s|` in every extension of the result. */
  lemma PairInPrefix(s: seq<JByte>, t: seq<JByte>, all: seq<JByte>, k: nat, c: Argb)
    requires t == s + PixelChroma(c, true) && t <= all && k == |s|
    ensures k + 1 < |all| && all[k] == ToJByte(ChromaV(c)) && all[k + 1] == ToJByte(ChromaU(c))
  {
    assert t[k] == ToJByte(ChromaV(c)) && t[k + 1] == ToJByte(ChromaU(c));
  }

  /** Byte `k` of the chroma area is byte `w * h + k` of the encoding. */
  lemma EncodedChroma(argb: seq<Argb>, w: nat, h: nat, k: nat)
    requires |argb| == w * h == Times(h, w) && k < |VuBytes(argb, w, h, 0)|
    ensures w * h + k < |Encoded(argb, w, h)|
    ensures Encoded(argb, w, h)[w * h + k] == VuBytes(argb, w, h, 0)[k]
  {
    assert Encoded(argb, w, h) == LumaPlane(argb, w * h) + VuBytes(argb, w, h, 0);
  }

  /**
   * For a pixel with even column `i` and even row `j`, V is stored at
   * `w * h + 2 * r` and U right after it, where `r` is the number of chroma
   * sites before the pixel (`(j / 2) * ceil(w / 2) + i / 2`, by `SiteRank`).
   */
  lemma ChromaAt(argb: seq<Argb>, w: nat, h: nat, i: nat, j: nat)
    requires |argb| == w * h && i < w && j < h && i % 2 == 0 && j % 2 == 0
    ensures 0 <= j * w + i < w * h
    ensures var k := w * h + 2 * ChromaRank(w, j, i);
      && k + 1 < |Encoded(argb, w, h)|
      && Encoded(argb, w, h)[k] == ToJByte(ChromaV(argb[j * w + i]))
      && Encoded(argb, w, h)[k + 1] == ToJByte(ChromaU(argb[j * w + i]))
  {
    TimesIsProduct(j, w);
    TimesIsProduct(h, w);
    var p := j * w + i;
    var k := 2 * ChromaRank(w, j, i);
    ChromaInVuBytes(argb, w, h, i, j);
    assert p == Times(j, w) + i;
    var vu := VuBytes(argb, w, h, 0);
    assert vu[k] == ToJByte(ChromaV(argb[p])) && vu[k + 1] == ToJByte(ChromaU(argb[p]));
    EncodedChroma(argb, w, h, k);
    EncodedChroma(argb, w, h, k + 1);
  }

  /** The chroma sites before an even pixel `(i, j)`: `j / 2` rows of `ceil(w / 2)` sites, and `i / 2` more. */
  lemma SiteRank(w: nat, i: nat, j: nat)
    requires i % 2 == 0 && j % 2 == 0
    ensures ChromaRank(w, j, i) == HalfUp(w) * (j / 2) + i / 2
  {
    assert HalfUp(j) == j / 2 && HalfUp(i) == i / 2;
    TimesIsProduct(HalfUp(j), HalfUp(w));
  }

  /**
   * Every V,U slot `c` of the chroma area belongs to one chroma site: row
   * `2 * (c / ceil(w / 2))`, column `2 * (c % ceil(w / 2))`. So chroma comes only
   * from even rows and columns and fills the area in raster order.
   */
  lemma ChromaSlot(argb: seq<Argb>, w: nat, h: nat, c: nat)
    requires |argb| == w * h && c < HalfUp(w) * HalfUp(h)
    ensures 0 < w && SlotColumn(w, c) < w && SlotRow(w, c) < h
    ensures SlotRow(w, c) * w + SlotColumn(w, c) < w * h
    ensures Encoded(argb, w, h)[w * h + 2 * c] == ToJByte(ChromaV(argb[SlotRow(w, c) * w + SlotColumn(w, c)]))
    ensures Encoded(argb, w, h)[w * h + 2 * c + 1] == ToJByte(ChromaU(argb[SlotRow(w, c) * w + SlotColumn(w, c)]))
  {
    SlotSite(w, h, c);
    var i, j := SlotColumn(w, c), SlotRow(w, c);
    SiteRank(w, i, j);
    ChromaAt(argb, w, h, i, j);
  }

  /** The column of the chroma site whose V,U pair sits in slot `c`. */
  function SlotColumn(w: nat, c: nat): nat
    requires w > 0
  {
    2 * (c % HalfUp(w))
  }

  /** The row of the chroma site whose V,U pair sits in slot `c`. */
  function SlotRow(w: nat, c: nat): nat
    requires w > 0
  {
    2 * (c / HalfUp(w))
  }

  /** Slot `c` is the rank of the site in column `2 * (c % ceil(w / 2))`, row `2 * (c / ceil(w / 2))`. */
  lemma SlotSite(w: nat, h: nat, c: nat)
    requires c < HalfUp(w) * HalfUp(h)
    ensures 0 < w && 0 < h
    ensures var i, j := SlotColumn(w, c), SlotRow(w, c);
      i < w && j < h && i % 2 == 0 && j % 2 == 0 && HalfUp(w) * (j / 2) + i / 2 == c
  {
    var cw, ch := HalfUp(w), HalfUp(h);
    if cw == 0 || ch == 0 {
      assert false;
    }
    var q, m := c / cw, c % cw;
    assert c == q * cw + m && 0 <= m < cw;
    if q >= ch {
      MulMonotone(ch, q, cw);
      assert false;
    }
    var i, j := 2 * m, 2 * q;
    assert j / 2 == q && i / 2 == m;
  }

  // ----- The encoder loop -----

  /**
   * A buffer laid out as the encoder leaves it after `p` pixels of a frame of
   * `fs` pixels, with the V,U bytes `vu` written: the Y bytes of the first `p`
   * pixels, the original Y area after them, `vu`, and the original bytes after
   * that.
   */
  ghost function Layout(pixels: seq<Argb>, before: seq<JByte>, fs: nat, p: nat, vu: seq<JByte>): (s: seq<JByte>)
    requires p <= fs <= |pixels| && fs + |vu| <= |before|
    ensures |s| == |before|
  {
    LumaPlane(pixels, p) + before[p..fs] + vu + before[fs + |vu|..]
  }

  /** Before the first pixel nothing has changed. */
  lemma LayoutStart(pixels: seq<Argb>, before: seq<JByte>, fs: nat)
    requires fs <= |pixels| && fs <= |before|
    ensures Layout(pixels, before, fs, 0, []) == before
  {
    assert LumaPlane(pixels, 0) == [];
    assert before[0..fs] + before[fs..] == before;
  }

  /** Past the last row the buffer holds the whole encoding and then the original tail. */
  lemma LayoutEnd(pixels: seq<Argb>, before: seq<JByte>, w: nat, h: nat)
    requires |pixels| == w * h && |before| >= WrittenLength(w, h)
    ensures Times(h, w) == w * h
    ensures Layout(pixels, before, w * h, w * h, VuBytes(pixels, w, h, 0))
      == Encoded(pixels, w, h) + before[WrittenLength(w, h)..]
  {
    TimesIsProduct(h, w);
  }

  /**
   * The buffer `s` after pixel `c` is stored: its Y byte at `p` and, at a
   * chroma site, its V byte at `uv` and its U byte at `uv + 1`.
   */
  function Store(s: seq<JByte>, c: Argb, p: nat, uv: nat, site: bool): (t: seq<JByte>)
    requires p < |s| && (site ==> uv + 1 < |s|)
    ensures |t| == |s|
  {
    if site then s[p := ToJByte(Luma(c))][uv := ToJByte(ChromaV(c))][uv + 1 := ToJByte(ChromaU(c))]
    else s[p := ToJByte(Luma(c))]
  }

  /** Storing pixel `p` of the layout moves it one pixel on. */
  lemma LayoutStep(pixels: seq<Argb>, before: seq<JByte>, fs: nat, p: nat, vu: seq<JByte>,
                   c: Argb, vu': seq<JByte>, uv: nat, site: bool)
    requires p < fs <= |pixels| && fs + |vu| + (if site then 2 else 0) <= |before|
    requires c == pixels[p] && vu' == vu + PixelChroma(c, site) && uv == fs + |vu|
    ensures Layout(pixels, before, fs, p + 1, vu') == Store(Layout(pixels, before, fs, p, vu), c, p, uv, site)
  {
    var a, bs, tail := LumaPlane(pixels, p), before[p..fs], before[fs + |vu|..];
    assert LumaPlane(pixels, p + 1) == a + [ToJByte(Luma(c))];
    assert before[p + 1..fs] == bs[1..];
    assert before[fs + |vu'|..] == if site then tail[2..] else tail;
    StoreSplice(a, bs, vu, tail, c, site, p, uv);
  }

  /**
   * Storing a pixel into a buffer laid out as `Y so far + untouched Y area +
   * V,U so far + untouched V,U area` moves one byte from each untouched area
   * to the part written so far.
   */
  lemma StoreSplice(a: seq<JByte>, b: seq<JByte>, vu: seq<JByte>, tail: seq<JByte>, c: Argb, site: bool, p: nat, uv: nat)
    requires |b| > 0 && (site ==> |tail| >= 2)
    requires p == |a| && uv == |a| + |b| + |vu|
    ensures Store(a + b + vu + tail, c, p, uv, site)
      == (a + [ToJByte(Luma(c))]) + b[1..] + (vu + PixelChroma(c, site)) + (if site then tail[2..] else tail)
  {
    var y := ToJByte(Luma(c));
    LumaSplice(a, b, vu + tail, y);
    assert a + b + vu + tail == a + b + (vu + tail);
    var front := (a + [y]) + b[1..] + vu;
    assert (a + [y]) + b[1..] + (vu + tail) == front + tail;
    if site {
      var x, z := ToJByte(ChromaV(c)), ToJByte(ChromaU(c));
      ChromaSplice(front, tail, x, z);
      assert front + [x, z] + tail[2..] == (a + [y]) + b[1..] + (vu + [x, z]) + tail[2..];
    } else {
      assert vu + [] == vu;
    }
  }

  /** Overwriting the first element of the middle part of a concatenation. */
  lemma LumaSplice(a: seq<JByte>, b: seq<JByte>, rest: seq<JByte>, y: JByte)
    requires |b| > 0
    ensures (a + b + rest)[|a| := y] == (a + [y]) + b[1..] + rest
  {
  }

  /** Overwriting the first two elements of the last part of a concatenation. */
  lemma ChromaSplice(front: seq<JByte>, tail: seq<JByte>, x: JByte, z: JByte)
    requires |tail| >= 2
    ensures (front + tail)[|front| := x][|front| + 1 := z] == front + [x, z] + tail[2..]
  {
  }

  /**
   * The body of the encoder's inner loop for pixel `c`: its Y byte at
   * `yIndex` and, at a chroma site, its V then U byte from `uvIndex` on.
   * Returns the advanced V,U cursor.
   */
  method StorePixel(yuv420sp: array<JByte>, c: Argb, yIndex: nat, uvIndex: nat, site: bool) returns (uvNext: nat)
    requires yIndex < yuv420sp.Length
    requires site ==> uvIndex + 1 < yuv420sp.Length
    modifies yuv420sp
    ensures uvNext == uvIndex + (if site then 2 else 0)
    ensures yuv420sp[..] == Store(old(yuv420sp[..]), c, yIndex, uvIndex, site)
  {
    var y := Clamp(RawLuma(Red(c), Green(c), Blue(c)));
    var u := Clamp(RawChromaU(Red(c), Green(c), Blue(c)));
    var v := Clamp(RawChromaV(Red(c), Green(c), Blue(c)));
    yuv420sp[yIndex] := ToJByte(y);
    uvNext := uvIndex;
    if site {
      yuv420sp[uvNext] := ToJByte(v);
      uvNext := uvNext + 1;
      yuv420sp[uvNext] := ToJByte(u);
      uvNext := uvNext + 1;
    }
  }

  /** The body of the encoder's inner loop for pixel `(i, j)`. */
  method EncodePixel(yuv420sp: array<JByte>, argb: seq<Argb>, width: nat, height: nat, frameSize: nat, j: nat, i: nat,
                     yIndex0: nat, uvIndex0: nat, rgbIndex0: nat, ghost before: seq<JByte>,
                     ghost vu0: seq<JByte>)
    returns (yIndex: nat, uvIndex: nat, rgbIndex: nat, ghost vu: seq<JByte>)
    requires |argb| == frameSize == Times(height, width)
    requires |before| >= WrittenLength(width, height) && j < height && i < width
    requires rgbIndex0 == yIndex0 == Times(j, width) + i <= frameSize
    requires vu0 == VuBytes(argb, width, j, i)
    requires uvIndex0 == frameSize + |vu0| <= |before|
    requires yuv420sp[..] == Layout(argb, before, frameSize, yIndex0, vu0)
    modifies yuv420sp
    ensures rgbIndex == yIndex == Times(j, width) + (i + 1) <= frameSize
    ensures vu == VuBytes(argb, width, j, i + 1)
    ensures uvIndex == frameSize + |vu| <= |before|
    ensures yuv420sp[..] == Layout(argb, before, frameSize, yIndex, vu)
  {
    RasterIndexBound(width, height, j, i + 1);
    PositionBound(width, height, j, i + 1);
    var c := argb[rgbIndex0];
    rgbIndex := rgbIndex0 + 1;
    var site := j % 2 == 0 && i % 2 == 0;
    if site {
      ChromaSlotBound(width, height, j, i);
    }
    vu := vu0 + PixelChroma(c, site);
    VuBytesStep(argb, width, j, i, c, site);
    LayoutStep(argb, before, frameSize, yIndex0, vu0, c, vu, uvIndex0, site);
    uvIndex := StorePixel(yuv420sp, c, yIndex0, uvIndex0, site);
    yIndex := yIndex0 + 1;
  }

  /**
   * One pass of the encoder's inner loop, over row `j`: the Y bytes of the
   * row's argb go to the Y area and the V,U pairs of its chroma sites to
   * the chroma area, with the three cursors moved past the row.
   */
  method EncodeRow(yuv420sp: array<JByte>, argb: seq<Argb>, width: nat, height: nat, frameSize: nat, j: nat,
                   yIndex0: nat, uvIndex0: nat, rgbIndex0: nat, ghost before: seq<JByte>,
                   ghost vu0: seq<JByte>)
    returns (yIndex: nat, uvIndex: nat, rgbIndex: nat, ghost vu: seq<JByte>)
    requires |argb| == frameSize == Times(height, width)
    requires |before| >= WrittenLength(width, height) && j < height
    requires yIndex0 == rgbIndex0 == Times(j, width) <= frameSize
    requires vu0 == VuBytes(argb, width, j, 0) && uvIndex0 == frameSize + |vu0| <= |before|
    requires yuv420sp[..] == Layout(argb, before, frameSize, yIndex0, vu0)
    modifies yuv420sp
    ensures yIndex == rgbIndex == Times(j + 1, width) <= frameSize
    ensures vu == VuBytes(argb, width, j + 1, 0) && uvIndex == frameSize + |vu| <= |before|
    ensures yuv420sp[..] == Layout(argb, before, frameSize, yIndex, vu)
  {
    yIndex, uvIndex, rgbIndex, vu := yIndex0, uvIndex0, rgbIndex0, vu0;
    for i := 0 to width
      invariant rgbIndex == yIndex == Times(j, width) + i <= frameSize
      invariant vu == VuBytes(argb, width, j, i)
      invariant uvIndex == frameSize + |vu| <= |before|
      invariant yuv420sp[..] == Layout(argb, before, frameSize, yIndex, vu)
    {
      yIndex, uvIndex, rgbIndex, vu := EncodePixel(yuv420sp, argb, width, height, frameSize, j, i, yIndex, uvIndex, rgbIndex, before, vu);
    }
    RowStart(width, j + 1);
    PositionBound(width, height, j + 1, 0);
  }

  /**
   * `encodeYUV420SP`: writes the NV21 bytes of `argb` to the front of
   * `yuv420sp`, with the Y cursor starting at 0 and the V,U cursor at
   * `width * height`, and leaves every later byte as it was.
   */
  method EncodeYuv420sp(yuv420sp: array<JByte>, argb: seq<Argb>, width: nat, height: nat)
    requires |argb| == width * height
    requires yuv420sp.Length >= WrittenLength(width, height)
    modifies yuv420sp
    ensures yuv420sp[..] == Encoded(argb, width, height) + old(yuv420sp[..])[WrittenLength(width, height)..]
  {
    ghost var before := yuv420sp[..];
    LayoutEnd(argb, before, width, height);
    var frameSize := width * height;
    var yIndex := 0;
    var uvIndex := frameSize;
    var rgbIndex := 0;
    ghost var vu: seq<JByte> := [];
    LayoutStart(argb, before, frameSize);
    for j := 0 to height
      invariant yIndex == rgbIndex == Times(j, width) <= frameSize
      invariant vu == VuBytes(argb, width, j, 0) && uvIndex == frameSize + |vu| <= |before|
      invariant yuv420sp[..] == Layout(argb, before, frameSize, yIndex, vu)
    {
      yIndex, uvIndex, rgbIndex, vu :=
        EncodeRow(yuv420sp, argb, width, height, frameSize, j, yIndex, uvIndex, rgbIndex, before, vu);
    }
  }

  // ----- The reused output buffer of getYUV420sp -----

  /** `inputWidth % 2 == 0 ? inputWidth : inputWidth + 1`. */
  function RoundUpEven(n: nat): (r: nat)
    ensures r % 2 == 0 && n <= r <= n + 1
  {
    if n % 2 == 0 then n else n + 1
  }

  /**
   * `requiredWidth * requiredHeight * 3 / 2`, the size `getYUV420sp` asks of
   * its buffer. Rounding both dimensions up to even numbers is what makes it
   * large enough: the encoder writes `w * h + 2 * ceil(w / 2) * ceil(h / 2)`
   * bytes and this is `6 * ceil(w / 2) * ceil(h / 2)`.
   */
  function ByteLength(w: nat, h: nat): (n: nat)
    ensures WrittenLength(w, h) <= n
  {
    ByteLengthSuffices(w, h);
    RoundUpEven(w) * RoundUpEven(h) * 3 / 2
  }

  lemma ByteLengthSuffices(w: nat, h: nat)
    ensures WrittenLength(w, h) <= RoundUpEven(w) * RoundUpEven(h) * 3 / 2
  {
    var cw, ch := HalfUp(w), HalfUp(h);
    var rw, rh := RoundUpEven(w), RoundUpEven(h);
    assert rw == 2 * cw && rh == 2 * ch;
    WrittenLengthFormula(w, h);
    MulMonotone(w, rw, h);
    MulMonotone(h, rh, rw);
    Quadruple(cw, ch);
    assert rw * rh * 3 / 2 == 6 * (cw * ch);
  }

  lemma Quadruple(a: nat, b: nat)
    ensures (2 * a) * (2 * b) == 4 * (a * b)
  {
  }

  /** Without the rounding, a single pixel would need three bytes of a one-byte buffer. */
  lemma UnroundedLengthOverflows()
    ensures 1 * 1 * 3 / 2 < WrittenLength(1, 1)
  {
  }

  function Zeros(n: nat): (z: seq<JByte>)
    ensures |z| == n && forall k :: 0 <= k < n ==> z[k] == 0
  {
    seq(n, _ => 0)
  }

  /** The private static field `yuvs` of `ImageDecoder`, with `getYUV420sp` on it. */
  class YuvBuffer {
    var yuvs: array?<JByte>

    /** The class is loaded with `yuvs` still `null`. */
    constructor ()
      ensures yuvs == null
    {
      yuvs := null;
    }

    /**
     * `getYUV420sp`: makes sure the buffer holds at least `ByteLength` zero
     * bytes and encodes the pixels into it. Every byte beyond the encoded ones
     * is 0. `argb` is what `Bitmap.getPixels` fills in for the scaled bitmap.
     */
    method GetYuv420sp(inputWidth: nat, inputHeight: nat, argb: seq<Argb>) returns (r: array<JByte>)
      requires |argb| == inputWidth * inputHeight
      modifies this, yuvs
      ensures yuvs == r
      ensures r.Length >= ByteLength(inputWidth, inputHeight)
      ensures old(yuvs) != null && old(yuvs).Length >= ByteLength(inputWidth, inputHeight) ==> r == old(yuvs)
      ensures old(yuvs) == null || old(yuvs).Length < ByteLength(inputWidth, inputHeight) ==>
        fresh(r) && r.Length == ByteLength(inputWidth, inputHeight)
      ensures r[..] == Encoded(argb, inputWidth, inputHeight)
        + Zeros(r.Length - WrittenLength(inputWidth, inputHeight))
    {
      var requiredWidth := RoundUpEven(inputWidth);
      var requiredHeight := RoundUpEven(inputHeight);
      var byteLength := requiredWidth * requiredHeight * 3 / 2;
      assert byteLength == ByteLength(inputWidth, inputHeight);
      PrepareBuffer(byteLength);
      ZerosSuffix(yuvs.Length, WrittenLength(inputWidth, inputHeight));
      EncodeYuv420sp(yuvs, argb, inputWidth, inputHeight);
      r := yuvs;
    }

    /**
     * The buffer half of `getYUV420sp`: a new zeroed array of `byteLength`
     * bytes when there is none or it is too short, otherwise the same array
     * cleared by `Arrays.fill`.
     */
    method PrepareBuffer(byteLength: nat)
      modifies this, yuvs
      ensures yuvs != null && yuvs.Length >= byteLength && yuvs[..] == Zeros(yuvs.Length)
      ensures old(yuvs) != null && old(yuvs).Length >= byteLength ==> yuvs == old(yuvs)
      ensures old(yuvs) == null || old(yuvs).Length < byteLength ==> fresh(yuvs) && yuvs.Length == byteLength
    {
      if yuvs == null || yuvs.Length < byteLength {
        yuvs := new JByte[byteLength](_ => 0);
      } else {
        forall k | 0 <= k < yuvs.Length {
          yuvs[k] := 0;
        }
      }
      assert yuvs[..] == Zeros(yuvs.Length);
    }
  }

  /** The zero bytes after the first `k` of a zeroed buffer. */
  lemma ZerosSuffix(n: nat, k: nat)
    requires k <= n
    ensures Zeros(n)[k..] == Zeros(n - k)
  {
  }

  // ----- cropImage -----

  /**
   * `cropImage`: the rectangle `x * 6 / 8` wide and `y * 6 / 8` high, offset
   * by `(x - width) / 2` and `(y - height) / 2`. Bitmap dimensions are never
   * negative, so Java's truncating division is floor division here.
   */
  function CropRect(x: nat, y: nat): Rect {
    var width := x * 6 / 8;
    var height := y * 6 / 8;
    var leftOffset := (x - width) / 2;
    var topOffset := (y - height) / 2;
    Rect(leftOffset, topOffset, leftOffset + width, topOffset + height)
  }

  /**
   * The crop keeps three quarters of each dimension, lies inside the bitmap and
   * is centred: the margin on the right (bottom) equals the one on the left
   * (top) or exceeds it by one pixel.
   */
  lemma CropRectCentred(x: nat, y: nat)
    ensures CropRect(x, y).Within(x, y)
    ensures CropRect(x, y).Width() == x * 6 / 8 && CropRect(x, y).Height() == y * 6 / 8
    ensures 0 <= (x - CropRect(x, y).right) - CropRect(x, y).left <= 1
    ensures 0 <= (y - CropRect(x, y).bottom) - CropRect(x, y).top <= 1
  {
  }

  // ----- calculateInSampleSize -----

  /**
   * `Math.round((float) a / (float) b)` on the exact quotient: the integer
   * nearest to `a / b`, halves rounded up.
   */
  function RoundedRatio(a: int, b: int): (q: int)
    requires b > 0
    ensures (2 * q - 1) * b <= 2 * a < (2 * q + 1) * b
  {
    var q := (2 * a + b) / (2 * b);
    assert q * (2 * b) <= 2 * a + b < q * (2 * b) + 2 * b;
    q
  }

  /**
   * `calculateInSampleSize` as written: 1 when the image already fits the
   * requested bounds, otherwise the smaller of the two rounded ratios.
   */
  function CalculateInSampleSizeAsWritten(height: int, width: int, reqHeight: int, reqWidth: int): (s: int)
    requires reqHeight > 0 && reqWidth > 0
    ensures height <= reqHeight && width <= reqWidth ==> s == 1
    ensures (height > reqHeight || width > reqWidth) ==>
      && (s == RoundedRatio(height, reqHeight) || s == RoundedRatio(width, reqWidth))
      && s <= RoundedRatio(height, reqHeight) && s <= RoundedRatio(width, reqWidth)
  {
    if height > reqHeight || width > reqWidth then
      Min(RoundedRatio(height, reqHeight), RoundedRatio(width, reqWidth))
    else
      1
  }

  /**
   * The source's comment promises that the chosen sample size keeps both
   * dimensions at least as large as requested. Rounding breaks it: a
   * 1800 x 1800 image with 1200 x 1200 requested gets size 2, that is 900 x 900.
   */
  lemma RoundedSampleSizeUndershoots()
    ensures CalculateInSampleSizeAsWritten(1800, 1800, 1200, 1200) == 2
    ensures 1800 < 2 * 1200
  {
    assert RoundedRatio(1800, 1200) == 2;
  }

  /**
   * The sample size with the ratios rounded down, which keeps the promise: a
   * size above 1 never shrinks either dimension below the requested one.
   */
  function CalculateInSampleSize(height: int, width: int, reqHeight: int, reqWidth: int): (s: int)
    requires reqHeight > 0 && reqWidth > 0
    ensures height <= reqHeight && width <= reqWidth ==> s == 1
    ensures s > 1 ==> s * reqHeight <= height && s * reqWidth <= width
    ensures (height > reqHeight || width > reqWidth) ==> (s + 1) * reqHeight > height || (s + 1) * reqWidth > width
  {
    if height > reqHeight || width > reqWidth then
      var hr, wr := height / reqHeight, width / reqWidth;
      FloorRatioBounds(height, reqHeight);
      FloorRatioBounds(width, reqWidth);
      SmallerFloorRatio(height, width, reqHeight, reqWidth, hr, wr);
      Min(hr, wr)
    else
      1
  }

  /** `a / b` rounded down is the largest multiple count of `b` that still fits in `a`. */
  lemma FloorRatioBounds(a: int, b: int)
    requires b > 0
    ensures (a / b) * b <= a < (a / b) * b + b
  {
  }

  /**
   * The smaller of two floor ratios, stated without division: a size above 1
   * fits both dimensions, and one more would not fit one of them.
   */
  lemma SmallerFloorRatio(height: int, width: int, reqHeight: int, reqWidth: int, hr: int, wr: int)
    requires reqHeight > 0 && reqWidth > 0
    requires hr * reqHeight <= height < hr * reqHeight + reqHeight
    requires wr * reqWidth <= width < wr * reqWidth + reqWidth
    ensures Min(hr, wr) > 1 ==> Min(hr, wr) * reqHeight <= height && Min(hr, wr) * reqWidth <= width
    ensures (Min(hr, wr) + 1) * reqHeight > height || (Min(hr, wr) + 1) * reqWidth > width
  {
    var s := Min(hr, wr);
    if s == hr {
      assert (s + 1) * reqHeight == hr * reqHeight + reqHeight;
    } else {
      assert (s + 1) * reqWidth == wr * reqWidth + reqWidth;
    }
    if s > 1 {
      MulMonotone(s, hr, reqHeight);
      MulMonotone(s, wr, reqWidth);
    }
  }
}
