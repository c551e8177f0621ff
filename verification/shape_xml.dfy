/** The parts of a presentation's DrawingML/PresentationML tree that font
    and spacing resolution read, as records whose optional children are
    `Option` fields (a missing element is `None`). */
module ShapeXml {
  import opened Wrappers

  /** Run properties, `a:rPr` or `a:defRPr`: the `typeface` attributes of
      the `a:ea` and `a:latin` children, `None` when the child or its
      attribute is absent. */
  datatype RunProps = RunProps(ea: Option<string>, latin: Option<string>)

  /** A spacing element, `a:lnSpc`, `a:spcBef` or `a:spcAft`: the integer
      `val` attributes of its `a:spcPct` and `a:spcPts` children. */
  datatype Spacing = Spacing(spcPct: Option<int>, spcPts: Option<int>)

  /** Paragraph properties, `a:pPr` or a list-style level such as `a:lvl1pPr`. */
  datatype ParagraphProps = ParagraphProps(
    defRPr: Option<RunProps>,
    lnSpc: Option<Spacing>,
    spcBef: Option<Spacing>,
    spcAft: Option<Spacing>)

  /** `a:lstStyle`, reduced to its first level. */
  datatype ListStyle = ListStyle(lvl1pPr: Option<ParagraphProps>)

  /** A text run `a:r` and its run properties. */
  datatype Run = Run(rPr: Option<RunProps>)

  /** A paragraph `a:p`: its runs and its paragraph properties. */
  datatype Paragraph = Paragraph(runs: seq<Run>, pPr: Option<ParagraphProps>)

  /** A text body `p:txBody`: its paragraphs and its list style. */
  datatype TextBody = TextBody(paragraphs: seq<Paragraph>, lstStyle: Option<ListStyle>)

  /** A shape: its placeholder index when it is a placeholder, and its text
      body when it has a text frame. Slide shapes and the placeholders of a
      slide layout are both shapes. */
  datatype Shape = Shape(placeholderIdx: Option<int>, txBody: Option<TextBody>)

  /** `a:majorFont` or `a:minorFont`: the `typeface` attributes of its
      `a:latin` and `a:ea` children, `None` when the child or its attribute
      is absent. */
  datatype FontCollection = FontCollection(latin: Option<string>, ea: Option<string>)

  /** `a:fontScheme` of a theme. */
  datatype FontScheme = FontScheme(majorFont: Option<FontCollection>, minorFont: Option<FontCollection>)

  /** The theme part of the first slide master, as parsed XML. */
  datatype ThemePart = ThemePart(fontScheme: Option<FontScheme>)

  /** The font name python-pptx reports for a run (`run.font.name`): the
      typeface of the run's `a:rPr/a:latin`. */
  function RunFontName(run: Run): Option<string> {
    match run.rPr
    case None => None
    case Some(props) => props.latin
  }
}
