/** `calculate_fitting_font_size`: the largest integer point size, scanning
    down from a ceiling to a floor of 6, at which the word-wrapped items fit
    the height of a text frame. Line counts come from measured widths, and
    heights from the line-spacing rules of ISO/IEC 29500-1 (section
    21.1.2.2.5, lnSpc): ratio spacing scales with the font size, fixed
    spacing is the whole line height. */
module SizeFitting {
  import opened Wrappers
  import opened FontNameIndex
  import opened FontCacheState
  import opened FontFileLookup

  /** The floor of the scan, in points. */
  const MinFontSize: int := 6

  /** The inputs of one fitting call. */
  datatype FitRequest = FitRequest(
    widthPt: real,            // available width
    heightPt: real,           // available height
    items: seq<string>,       // one paragraph per item
    maxSize: int,             // ceiling of the scan
    fontName: string,
    lineSpacing: real,        // a ratio, or a line height in points when fixed
    spaceBeforePt: real,
    spaceAfterPt: real,
    lineHeightFactor: real,   // the renderer's leading, typically 1.2
    isFixedLineSpacing: bool)

  /** The errors the call raises. */
  datatype FitError =
    | FontNotFound       // no font file for the name (ValueError)
    | MeasurementFailed  // the resolved font did not measure an item (ValueError)
    | DivisionByZero     // a zero available width (ZeroDivisionError)

  /** The available width in pixels, at 96 pixels per 72 points. */
  function WidthPx(widthPt: real): real {
    widthPt * (DefaultDpi as real / 72.0)
  }

  /** `max(1, int((text_width_px + width_px - 1) // width_px))`: the lines one
      item is counted as. It is at least 1, and above 1 it is the floor of
      `(w + W - 1) / W`. */
  function ItemLineCount(textWidthPx: real, widthPx: real): (n: int)
    requires widthPx != 0.0
    ensures n >= 1
    ensures n > 1 && widthPx > 0.0 ==>
      n as real * widthPx <= textWidthPx + widthPx - 1.0 < (n + 1) as real * widthPx
    ensures n == 1 && widthPx > 0.0 ==> textWidthPx + widthPx - 1.0 < 2.0 * widthPx
  {
    var x := (textWidthPx + widthPx - 1.0) / widthPx;
    var q := x.Floor;
    FloorScaled(x, q, widthPx, textWidthPx + widthPx - 1.0);
    if q > 1 then q else 1
  }

  lemma FloorScaled(x: real, q: int, w: real, a: real)
    requires w != 0.0 && x == a / w && q as real <= x < (q + 1) as real
    ensures w > 0.0 ==> q as real * w <= a < (q + 1) as real * w
    ensures w > 0.0 && q <= 1 ==> a < 2.0 * w
  {
    if w > 0.0 {
      var lo, hi := q as real, (q + 1) as real;
      assert a == x * w;
      assert (x - lo) * w >= 0.0;
      assert x * w - lo * w == (x - lo) * w;
      assert (hi - x) * w > 0.0;
      assert hi * w - x * w == (hi - x) * w;
      if q <= 1 {
        assert (q + 1) as real * w <= 2.0 * w;
      }
    }
  }

  /** With whole-pixel widths the count is the ceiling of `w / W`: the fewest
      lines of width `W` that hold `w`. */
  lemma LineCountIsCeilingForWholePixels(textWidthPx: int, widthPx: int)
    requires widthPx >= 1 && textWidthPx >= 1
    ensures var n := ItemLineCount(textWidthPx as real, widthPx as real);
      (n - 1) * widthPx < textWidthPx <= n * widthPx
  {
  }

  /** When the available width is not a whole number of pixels the count can
      fall short of the ceiling: at 100.1 points (133.47 pixels) a text 134
      pixels wide is counted as one line although it does not fit on one. */
  lemma LineCountUndercountsFractionalWidth()
    ensures 134.0 > WidthPx(100.1)
    ensures ItemLineCount(134.0, WidthPx(100.1)) == 1
  {
  }

  /** The total line count of the items at one size, or the error the first
      failing item raises: its measurement fails, or the width is zero. */
  function TotalLines(m: GlyphMetrics, path: string, items: seq<string>, sizePt: int, widthPx: real): (r: Result<int, FitError>)
    ensures r.Success? ==> r.value >= |items|
    ensures r.Success? <==>
      (|items| == 0 || widthPx != 0.0) && forall i | 0 <= i < |items| :: Measure(m, path, items[i], sizePt).Some?
    ensures r == Failure(DivisionByZero) <==>
      |items| > 0 && widthPx == 0.0 && Measure(m, path, items[0], sizePt).Some?
    ensures r.Failure? && r.error != DivisionByZero ==> r.error == MeasurementFailed
    ensures |items| == 1 && widthPx != 0.0 && Measure(m, path, items[0], sizePt).Some? ==>
      r == Success(ItemLineCount(Measure(m, path, items[0], sizePt).value, widthPx))
  {
    if |items| == 0 then Success(0)
    else
      match Measure(m, path, items[0], sizePt)
      case None => Failure(MeasurementFailed)
      case Some(w) =>
        if widthPx == 0.0 then Failure(DivisionByZero)
        else
          var rest := TotalLines(m, path, items[1..], sizePt, widthPx);
          assert forall i | 1 <= i < |items| :: items[i] == items[1..][i - 1];
          match rest
          case Failure(e) => Failure(e)
          case Success(n) => Success(ItemLineCount(w, widthPx) + n)
  }

  /** The height of one line: the fixed spacing itself, or size x factor x ratio. */
  function LineHeight(req: FitRequest, sizePt: int): (r: real)
    ensures req.isFixedLineSpacing ==> r == req.lineSpacing
    ensures !req.isFixedLineSpacing && sizePt == 0 ==> r == 0.0
    ensures !req.isFixedLineSpacing && req.lineSpacing == 1.0 ==> r == req.lineHeightFactor * sizePt as real
  {
    if req.isFixedLineSpacing then req.lineSpacing
    else sizePt as real * req.lineHeightFactor * req.lineSpacing
  }

  /** Fixed spacing gives one line height at every size; ratio spacing gives
      a line height proportional to the size. */
  lemma LineHeightScales(req: FitRequest, t: int, s: int)
    ensures req.isFixedLineSpacing ==> LineHeight(req, t) == LineHeight(req, s)
    ensures !req.isFixedLineSpacing ==> LineHeight(req, t) * s as real == LineHeight(req, s) * t as real
  {
    if !req.isFixedLineSpacing {
      var k := req.lineHeightFactor * req.lineSpacing;
      assert LineHeight(req, t) == t as real * k;
      assert LineHeight(req, s) == s as real * k;
    }
  }

  /** Ratio spacing multiplies the single-spaced line height: spacing 1.5
      gives one and a half single lines. */
  lemma LineSpacingMultipliesSingleHeight(req: FitRequest, s: int)
    requires !req.isFixedLineSpacing
    ensures LineHeight(req, s) == req.lineSpacing * LineHeight(req.(lineSpacing := 1.0), s)
  {
    var single := req.(lineSpacing := 1.0);
    assert LineHeight(single, s) == req.lineHeightFactor * s as real;
    assert LineHeight(req, s) == (s as real * req.lineHeightFactor) * req.lineSpacing;
  }

  /** Lines times line height, plus before-and-after spacing between items
      (`item count - 1` gaps, which is -1 for an empty item list). */
  function RequiredHeight(req: FitRequest, totalLines: int, sizePt: int): (r: real)
    ensures |req.items| == 1 ==> r == totalLines as real * LineHeight(req, sizePt)
    ensures |req.items| == 0 ==> r == totalLines as real * LineHeight(req, sizePt) - (req.spaceBeforePt + req.spaceAfterPt)
  {
    totalLines as real * LineHeight(req, sizePt)
      + (req.spaceBeforePt + req.spaceAfterPt) * (|req.items| - 1) as real
  }

  /** Each line counted adds one line height, and each item beyond the
      first adds one space-before and one space-after. */
  lemma RequiredHeightIncrements(req: FitRequest, totalLines: int, sizePt: int, item: string)
    ensures RequiredHeight(req, totalLines + 1, sizePt) == RequiredHeight(req, totalLines, sizePt) + LineHeight(req, sizePt)
    ensures RequiredHeight(req.(items := req.items + [item]), totalLines, sizePt)
         == RequiredHeight(req, totalLines, sizePt) + req.spaceBeforePt + req.spaceAfterPt
  {
    var lh := LineHeight(req, sizePt);
    assert (totalLines + 1) as real * lh == totalLines as real * lh + lh;
    var gap := req.spaceBeforePt + req.spaceAfterPt;
    assert |req.items + [item]| == |req.items| + 1;
    assert gap * (|req.items| + 1 - 1) as real == gap * (|req.items| - 1) as real + gap;
  }

  /** The height the items need at one size, or the error measuring them raises. */
  function HeightAt(req: FitRequest, m: GlyphMetrics, path: string, sizePt: int): Result<real, FitError> {
    match TotalLines(m, path, req.items, sizePt, WidthPx(req.widthPt))
    case Failure(e) => Failure(e)
    case Success(n) => Success(RequiredHeight(req, n, sizePt))
  }

  predicate Fits(req: FitRequest, m: GlyphMetrics, path: string, sizePt: int) {
    var h := HeightAt(req, m, path, sizePt);
    h.Success? && h.value <= req.heightPt
  }

  predicate Overflows(req: FitRequest, m: GlyphMetrics, path: string, sizePt: int) {
    var h := HeightAt(req, m, path, sizePt);
    h.Success? && h.value > req.heightPt
  }

  /** The scan from `size` down to the floor: the first size that fits, the
      floor when none does, or the first error met on the way. Every size
      above the answer was measured and overflowed. */
  function ScanDown(req: FitRequest, m: GlyphMetrics, path: string, size: int): (r: Result<int, FitError>)
    ensures r.Success? ==> MinFontSize <= r.value
    ensures r.Success? && MinFontSize <= size ==> r.value <= size
    ensures r.Success? ==> forall t | r.value < t <= size :: Overflows(req, m, path, t)
    ensures r.Success? && MinFontSize < r.value ==> Fits(req, m, path, r.value)
    ensures r.Success? && r.value == MinFontSize <= size ==>
      Fits(req, m, path, MinFontSize) || Overflows(req, m, path, MinFontSize)
    ensures r.Failure? ==> exists t | MinFontSize <= t <= size ::
      HeightAt(req, m, path, t) == Failure(r.error) && forall u | t < u <= size :: Overflows(req, m, path, u)
    decreases size
  {
    if size < MinFontSize then Success(MinFontSize)
    else
      match HeightAt(req, m, path, size)
      case Failure(e) => Failure(e)
      case Success(h) =>
        if h <= req.heightPt then Success(size)
        else ScanDown(req, m, path, size - 1)
  }

  /** `calculate_fitting_font_size`: resolves the font file (which may
      initialise the name index), then scans from the ceiling down. */
  function CalculateFittingFontSize(c: FontCaches, req: FitRequest, dir: FontDirectory, isFile: set<string>, m: GlyphMetrics): (r: (Result<int, FitError>, FontCaches))
    ensures r.1 == FindFontFile(c, req.fontName, dir, isFile).1
    ensures r.0 == Failure(FontNotFound) <==> FindFontFile(c, req.fontName, dir, isFile).0.None?
    ensures r.0.Success? ==> MinFontSize <= r.0.value
    ensures r.0.Success? && MinFontSize <= req.maxSize ==> r.0.value <= req.maxSize
    ensures req.maxSize < MinFontSize && FindFontFile(c, req.fontName, dir, isFile).0.Some? ==>
      r.0 == Success(MinFontSize)
    ensures FindFontFile(c, req.fontName, dir, isFile).0.Some? ==>
      r.0 == ScanDown(req, m, FindFontFile(c, req.fontName, dir, isFile).0.value, req.maxSize)
  {
    var (path, c') := FindFontFile(c, req.fontName, dir, isFile);
    match path
    case None => (Failure(FontNotFound), c')
    case Some(p) => (ScanDown(req, m, p, req.maxSize), c')
  }

  // ---------------------------------------------------------------------
  // The scan finds the largest fitting size
  // ---------------------------------------------------------------------

  /** `s` is the largest size in [6, ceiling] that fits, and every larger
      size in range was measured and overflowed. */
  ghost predicate LargestFit(req: FitRequest, m: GlyphMetrics, path: string, ceiling: int, s: int) {
    && MinFontSize <= s <= ceiling
    && Fits(req, m, path, s)
    && forall t | s < t <= ceiling :: Overflows(req, m, path, t)
  }

  /** Every size in [6, ceiling] was measured and overflowed. */
  ghost predicate NothingFits(req: FitRequest, m: GlyphMetrics, path: string, ceiling: int) {
    forall t | MinFontSize <= t <= ceiling :: Overflows(req, m, path, t)
  }

  /** The scan answers `s` exactly when `s` is the largest fitting size, or
      `s` is the floor and nothing in range fits (a ceiling below 6 included). */
  lemma {:induction false} ScanFindsLargestFit(req: FitRequest, m: GlyphMetrics, path: string, ceiling: int, s: int)
    ensures ScanDown(req, m, path, ceiling) == Success(s) <==>
      LargestFit(req, m, path, ceiling, s) || (s == MinFontSize && NothingFits(req, m, path, ceiling))
    decreases ceiling
  {
    if ceiling >= MinFontSize {
      ScanFindsLargestFit(req, m, path, ceiling - 1, s);
      if Overflows(req, m, path, ceiling) {
        assert ScanDown(req, m, path, ceiling) == ScanDown(req, m, path, ceiling - 1);
        OverflowLowersCeiling(req, m, path, ceiling, s);
      } else if Fits(req, m, path, ceiling) {
        assert ScanDown(req, m, path, ceiling) == Success(ceiling);
        assert LargestFit(req, m, path, ceiling, ceiling);
        assert !NothingFits(req, m, path, ceiling);
      } else {
        assert ScanDown(req, m, path, ceiling).Failure?;
        assert !NothingFits(req, m, path, ceiling);
      }
    }
  }

  lemma OverflowLowersCeiling(req: FitRequest, m: GlyphMetrics, path: string, ceiling: int, s: int)
    requires MinFontSize <= ceiling && Overflows(req, m, path, ceiling)
    ensures LargestFit(req, m, path, ceiling, s) <==> LargestFit(req, m, path, ceiling - 1, s)
    ensures NothingFits(req, m, path, ceiling) <==> NothingFits(req, m, path, ceiling - 1)
  {
    if LargestFit(req, m, path, ceiling, s) {
      assert s != ceiling;
    }
  }

  /** The scan fails with `e` exactly when some size in range raises `e` and
      every size above it was measured and overflowed. */
  lemma ScanFailsAtFirstError(req: FitRequest, m: GlyphMetrics, path: string, ceiling: int, t: int, e: FitError)
    requires MinFontSize <= t <= ceiling
    requires HeightAt(req, m, path, t) == Failure(e)
    requires forall u | t < u <= ceiling :: Overflows(req, m, path, u)
    ensures ScanDown(req, m, path, ceiling) == Failure(e)
    decreases ceiling
  {
  }

  // ---------------------------------------------------------------------
  // With widths that grow with the size, fitting is downward closed
  // ---------------------------------------------------------------------

  /** Every item measures at every size in [lo, hi], and no narrower at a larger size. */
  ghost predicate WidthsGrowWithSize(m: GlyphMetrics, path: string, items: seq<string>, lo: int, hi: int) {
    forall i, t, s | 0 <= i < |items| && lo <= t <= s <= hi ::
      Measure(m, path, items[i], t).Some? && Measure(m, path, items[i], s).Some?
      && Measure(m, path, items[i], t).value <= Measure(m, path, items[i], s).value
  }

  lemma ItemLineCountMonotone(w1: real, w2: real, widthPx: real)
    requires widthPx > 0.0 && w1 <= w2
    ensures ItemLineCount(w1, widthPx) <= ItemLineCount(w2, widthPx)
  {
    assert (w1 + widthPx - 1.0) / widthPx <= (w2 + widthPx - 1.0) / widthPx;
  }

  lemma {:induction false} TotalLinesMonotone(m: GlyphMetrics, path: string, items: seq<string>, t: int, s: int, widthPx: real)
    requires widthPx > 0.0 && t <= s
    requires WidthsGrowWithSize(m, path, items, t, s)
    ensures TotalLines(m, path, items, t, widthPx).Success?
    ensures TotalLines(m, path, items, s, widthPx).Success?
    ensures TotalLines(m, path, items, t, widthPx).value <= TotalLines(m, path, items, s, widthPx).value
    decreases |items|
  {
    if |items| > 0 {
      assert WidthsGrowWithSize(m, path, items[1..], t, s) by {
        forall i, a, b | 0 <= i < |items[1..]| && t <= a <= b <= s
          ensures Measure(m, path, items[1..][i], a).Some? && Measure(m, path, items[1..][i], b).Some?
            && Measure(m, path, items[1..][i], a).value <= Measure(m, path, items[1..][i], b).value
        {
          assert items[1..][i] == items[i + 1];
        }
      }
      TotalLinesMonotone(m, path, items[1..], t, s, widthPx);
      assert Measure(m, path, items[0], t).value <= Measure(m, path, items[0], s).value;
      ItemLineCountMonotone(Measure(m, path, items[0], t).value, Measure(m, path, items[0], s).value, widthPx);
    }
  }

  /** The total of a list of items is the sum of the totals of its parts:
      one count per item, added up in order. */
  lemma {:induction false} TotalLinesConcat(m: GlyphMetrics, path: string, a: seq<string>, b: seq<string>, sizePt: int, widthPx: real)
    requires TotalLines(m, path, a, sizePt, widthPx).Success?
    requires TotalLines(m, path, b, sizePt, widthPx).Success?
    ensures TotalLines(m, path, a + b, sizePt, widthPx)
         == Success(TotalLines(m, path, a, sizePt, widthPx).value + TotalLines(m, path, b, sizePt, widthPx).value)
    decreases |a|
  {
    if |a| > 0 {
      assert (a + b)[0] == a[0];
      assert (a + b)[1..] == a[1..] + b;
      TotalLinesConcat(m, path, a[1..], b, sizePt, widthPx);
    } else {
      assert a + b == b;
    }
  }

  /** When widths grow with the size and a line is never of negative height,
      a size that fits makes every smaller size down to the floor fit, so
      the sizes that fit form a range starting at 6 and the scan stops at its top. */
  lemma FitsDownwardClosed(req: FitRequest, m: GlyphMetrics, path: string, t: int, s: int)
    requires MinFontSize <= t <= s
    requires WidthPx(req.widthPt) > 0.0
    requires WidthsGrowWithSize(m, path, req.items, t, s)
    requires if req.isFixedLineSpacing then req.lineSpacing >= 0.0 else req.lineHeightFactor * req.lineSpacing >= 0.0
    requires Fits(req, m, path, s)
    ensures Fits(req, m, path, t)
  {
    var w := WidthPx(req.widthPt);
    TotalLinesMonotone(m, path, req.items, t, s, w);
    var nt, ns := TotalLines(m, path, req.items, t, w).value, TotalLines(m, path, req.items, s, w).value;
    assert HeightAt(req, m, path, t) == Success(RequiredHeight(req, nt, t));
    assert HeightAt(req, m, path, s) == Success(RequiredHeight(req, ns, s));
    RequiredHeightMonotone(req, nt, ns, t, s);
  }

  lemma RequiredHeightMonotone(req: FitRequest, nt: int, ns: int, t: int, s: int)
    requires 0 <= nt <= ns && 0 <= t <= s
    requires if req.isFixedLineSpacing then req.lineSpacing >= 0.0 else req.lineHeightFactor * req.lineSpacing >= 0.0
    ensures RequiredHeight(req, nt, t) <= RequiredHeight(req, ns, s)
  {
    LineHeightMonotone(req, t, s);
    ProductMonotone(nt as real, ns as real, LineHeight(req, t), LineHeight(req, s));
  }

  lemma LineHeightMonotone(req: FitRequest, t: int, s: int)
    requires 0 <= t <= s
    requires if req.isFixedLineSpacing then req.lineSpacing >= 0.0 else req.lineHeightFactor * req.lineSpacing >= 0.0
    ensures 0.0 <= LineHeight(req, t) <= LineHeight(req, s)
  {
  }

  lemma ProductMonotone(a: real, b: real, x: real, y: real)
    requires 0.0 <= a <= b && 0.0 <= x <= y
    ensures 0.0 <= a * x <= b * y
  {
  }

  /** Widths that grow with the pixel size give measurements that grow with
      the point size, since the pixel size never shrinks as points grow. */
  lemma InkWidthGrowthGivesWidthsGrowWithSize(m: GlyphMetrics, path: string, items: seq<string>, lo: int, hi: int)
    requires path in m.loadable
    requires forall text, a, b | a <= b :: m.inkWidth(SizedFont(path, a), text) <= m.inkWidth(SizedFont(path, b), text)
    ensures WidthsGrowWithSize(m, path, items, lo, hi)
  {
  }
}
