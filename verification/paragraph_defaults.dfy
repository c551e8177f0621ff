/** `get_placeholder_paragraph_defaults`: line spacing and paragraph spacing
    a slide placeholder inherits from the first list-style level of the
    matching placeholder of its slide layout. Spacing values are hundred-
    thousandths (`a:spcPct`) or hundredths of a point (`a:spcPts`), per
    sections 21.1.2.2.5, 21.1.2.2.11 and 21.1.2.2.12 of ISO/IEC 29500-1. */
module ParagraphDefaultsResolver {
  import opened Wrappers
  import opened ShapeXml

  /** Line spacing: a multiple of the font size, a fixed line height in
      points, or unset (the application decides). */
  datatype LineSpacing = Ratio(multiplier: real) | FixedPoints(points: real) | Unset

  /** The record the source returns. */
  datatype ParagraphDefaults = ParagraphDefaults(lineSpacing: LineSpacing, spaceBeforePt: real, spaceAfterPt: real)
  {
    /** The `line_spacing` entry: the number, `None` when unset. */
    function LineSpacingValue(): Option<real> {
      match lineSpacing
      case Ratio(m) => Some(m)
      case FixedPoints(p) => Some(p)
      case Unset => None
    }

    /** The `line_spacing_type` entry. */
    function LineSpacingType(): string {
      match lineSpacing
      case Ratio(_) => "ratio"
      case FixedPoints(_) => "fixed_pt"
      case Unset => "default"
    }
  }

  /** What is returned when any link of the inheritance chain is missing. */
  const DefaultParagraphDefaults: ParagraphDefaults := ParagraphDefaults(Unset, 0.0, 0.0)

  /** `a:spcPct` units per 1.0 of line spacing (100000 is single spacing). */
  const PercentUnitsPerRatio: int := 100000
  /** `a:spcPts` units per point (1400 is 14 points). */
  const PointUnitsPerPoint: int := 100

  /** The first layout placeholder whose index is `idx`. */
  function FindLayoutPlaceholder(layout: seq<Shape>, idx: int): (r: Option<Shape>)
    ensures r.None? <==> forall i | 0 <= i < |layout| :: layout[i].placeholderIdx != Some(idx)
    ensures r.Some? ==> exists i | 0 <= i < |layout| ::
      layout[i] == r.value && r.value.placeholderIdx == Some(idx)
      && forall j | 0 <= j < i :: layout[j].placeholderIdx != Some(idx)
  {
    if |layout| == 0 then None
    else if layout[0].placeholderIdx == Some(idx) then Some(layout[0])
    else FindLayoutPlaceholder(layout[1..], idx)
  }

  /** An `a:lnSpc` element read as line spacing: `a:spcPct` takes
      precedence over `a:spcPts`; an element with neither, or no element,
      leaves the spacing unset. */
  function DecodeLineSpacing(lnSpc: Option<Spacing>): (r: LineSpacing)
    ensures r.Ratio? <==> lnSpc.Some? && lnSpc.value.spcPct.Some?
    ensures r.Ratio? ==> r.multiplier * PercentUnitsPerRatio as real == lnSpc.value.spcPct.value as real
    ensures r.FixedPoints? <==> lnSpc.Some? && lnSpc.value.spcPct.None? && lnSpc.value.spcPts.Some?
    ensures r.FixedPoints? ==> r.points * PointUnitsPerPoint as real == lnSpc.value.spcPts.value as real
  {
    match lnSpc
    case None => Unset
    case Some(spacing) =>
      if spacing.spcPct.Some? then Ratio(spacing.spcPct.value as real / PercentUnitsPerRatio as real)
      else if spacing.spcPts.Some? then FixedPoints(spacing.spcPts.value as real / PointUnitsPerPoint as real)
      else Unset
  }

  /** An `a:spcBef` or `a:spcAft` element read as points: only `a:spcPts`
      is read; a percentage, or no element, is 0. */
  function DecodeSpacingPoints(spc: Option<Spacing>): (r: real)
    ensures spc.Some? && spc.value.spcPts.Some? ==> r * PointUnitsPerPoint as real == spc.value.spcPts.value as real
    ensures spc.None? || spc.value.spcPts.None? ==> r == 0.0
  {
    if spc.Some? && spc.value.spcPts.Some? then spc.value.spcPts.value as real / PointUnitsPerPoint as real else 0.0
  }

  /** The first list-style level of the layout placeholder matching `shape`,
      when every link of the chain is present. */
  function InheritedLevel(shape: Shape, layout: seq<Shape>): (r: Option<ParagraphProps>)
    ensures r.Some? ==> shape.placeholderIdx.Some? && exists i | 0 <= i < |layout| ::
      layout[i].placeholderIdx == shape.placeholderIdx && layout[i].txBody.Some?
      && layout[i].txBody.value.lstStyle.Some? && layout[i].txBody.value.lstStyle.value.lvl1pPr == r
    ensures shape.placeholderIdx.None? ==> r.None?
    ensures shape.placeholderIdx.Some? ==>
      var found := FindLayoutPlaceholder(layout, shape.placeholderIdx.value);
      (r.Some? <==> (found.Some? && found.value.txBody.Some? && found.value.txBody.value.lstStyle.Some?
                     && found.value.txBody.value.lstStyle.value.lvl1pPr.Some?))
    ensures r.Some? ==> r == FindLayoutPlaceholder(layout, shape.placeholderIdx.value).value.txBody.value.lstStyle.value.lvl1pPr
  {
    match shape.placeholderIdx
    case None => None
    case Some(idx) =>
      match FindLayoutPlaceholder(layout, idx)
      case None => None
      case Some(placeholder) =>
        match placeholder.txBody
        case None => None
        case Some(body) =>
          match body.lstStyle
          case None => None
          case Some(style) => style.lvl1pPr
  }

  /** `get_placeholder_paragraph_defaults` for a slide shape whose slide
      layout has the placeholders `layout`. */
  function GetPlaceholderParagraphDefaults(shape: Shape, layout: seq<Shape>): (r: ParagraphDefaults)
    ensures InheritedLevel(shape, layout).None? ==> r == DefaultParagraphDefaults
    ensures InheritedLevel(shape, layout).Some? ==>
      var level := InheritedLevel(shape, layout).value;
      && r.lineSpacing == DecodeLineSpacing(level.lnSpc)
      && r.spaceBeforePt == DecodeSpacingPoints(level.spcBef)
      && r.spaceAfterPt == DecodeSpacingPoints(level.spcAft)
    ensures r.LineSpacingType() == "default" <==> r.LineSpacingValue().None?
  {
    match InheritedLevel(shape, layout)
    case None => DefaultParagraphDefaults
    case Some(level) =>
      ParagraphDefaults(DecodeLineSpacing(level.lnSpc), DecodeSpacingPoints(level.spcBef), DecodeSpacingPoints(level.spcAft))
  }

  /** A line spacing a single `a:spcPct` or `a:spcPts` child can express:
      a whole number of units. */
  predicate Encodable(ls: LineSpacing) {
    match ls
    case Ratio(m) => (m * PercentUnitsPerRatio as real).Floor as real == m * PercentUnitsPerRatio as real
    case FixedPoints(p) => (p * PointUnitsPerPoint as real).Floor as real == p * PointUnitsPerPoint as real
    case Unset => true
  }

  /** The `a:lnSpc` element that writes a line spacing (`None` writes no element). */
  function EncodeLineSpacing(ls: LineSpacing): (r: Option<Spacing>)
    ensures ls.Unset? <==> r.None?
    ensures r.Some? ==> (r.value.spcPct.Some? <==> r.value.spcPts.None?)
  {
    match ls
    case Ratio(m) => Some(Spacing(Some((m * PercentUnitsPerRatio as real).Floor), None))
    case FixedPoints(p) => Some(Spacing(None, Some((p * PointUnitsPerPoint as real).Floor)))
    case Unset => None
  }

  /** A spacing element as the schema allows it: exactly one of `a:spcPct`
      and `a:spcPts`. */
  predicate WellFormedSpacing(s: Spacing) {
    s.spcPct.Some? != s.spcPts.Some?
  }

  /** Reading back what was written gives the line spacing that was written. */
  lemma DecodeEncodeLineSpacing(ls: LineSpacing)
    requires Encodable(ls)
    ensures DecodeLineSpacing(EncodeLineSpacing(ls)) == ls
  {
  }

  /** Writing back what was read gives the element that was read, for every
      well-formed element. */
  lemma EncodeDecodeLineSpacing(lnSpc: Option<Spacing>)
    requires lnSpc.Some? ==> WellFormedSpacing(lnSpc.value)
    ensures EncodeLineSpacing(DecodeLineSpacing(lnSpc)) == lnSpc
  {
  }

  /** The unit conversions at known values: 100000 is single spacing, 150000
      one and a half lines, 1400 fourteen points; a space-before of 600 is
      six points. */
  lemma UnitConversionExamples()
    ensures DecodeLineSpacing(Some(Spacing(Some(100000), None))) == Ratio(1.0)
    ensures DecodeLineSpacing(Some(Spacing(Some(150000), None))) == Ratio(1.5)
    ensures DecodeLineSpacing(Some(Spacing(None, Some(1400)))) == FixedPoints(14.0)
    ensures DecodeLineSpacing(Some(Spacing(Some(90000), Some(1400)))) == Ratio(0.9)
    ensures DecodeSpacingPoints(Some(Spacing(None, Some(600)))) == 6.0
    ensures DecodeSpacingPoints(Some(Spacing(Some(20000), None))) == 0.0
  {
  }

  /** Only the placeholder index links a shape to its layout: the shape's
      own text, and layout placeholders after the first match, never matter. */
  lemma OnlyFirstMatchMatters(shape: Shape, layout: seq<Shape>, body: Option<TextBody>, extra: seq<Shape>)
    requires shape.placeholderIdx.Some? && FindLayoutPlaceholder(layout, shape.placeholderIdx.value).Some?
    ensures GetPlaceholderParagraphDefaults(shape, layout) == GetPlaceholderParagraphDefaults(shape.(txBody := body), layout + extra)
  {
    FirstMatchPrefix(layout, extra, shape.placeholderIdx.value);
  }

  lemma {:induction false} FirstMatchPrefix(layout: seq<Shape>, extra: seq<Shape>, idx: int)
    requires FindLayoutPlaceholder(layout, idx).Some?
    ensures FindLayoutPlaceholder(layout + extra, idx) == FindLayoutPlaceholder(layout, idx)
    decreases |layout|
  {
    if layout[0].placeholderIdx != Some(idx) {
      assert (layout + extra)[1..] == layout[1..] + extra;
      FirstMatchPrefix(layout[1..], extra, idx);
    }
  }
}
