/** Font resolution for a shape's text: theme font references, the theme's
    font scheme, and the inheritance chain from the first run up to the
    theme defaults. */
module ShapeFont {
  import opened Wrappers
  import opened ShapeXml

  /** The four theme fonts; a slot is `None` when the theme does not define it. */
  datatype ThemeFonts = ThemeFonts(
    majorLatin: Option<string>,
    majorEa: Option<string>,
    minorLatin: Option<string>,
    minorEa: Option<string>)

  const NoThemeFonts: ThemeFonts := ThemeFonts(None, None, None, None)

  /** The four slots a theme font reference can name. */
  datatype ThemeSlot = MajorLatin | MinorLatin | MajorEa | MinorEa

  function SlotValue(theme: ThemeFonts, slot: ThemeSlot): Option<string> {
    match slot
    case MajorLatin => theme.majorLatin
    case MinorLatin => theme.minorLatin
    case MajorEa => theme.majorEa
    case MinorEa => theme.minorEa
  }

  /** The typeface a run property writes to refer to a theme slot. */
  function ThemeToken(slot: ThemeSlot): string {
    match slot
    case MajorLatin => "+mj-lt"
    case MinorLatin => "+mn-lt"
    case MajorEa => "+mj-ea"
    case MinorEa => "+mn-ea"
  }

  /** The slot a typeface refers to, when it is one of the four references. */
  function SlotOfToken(typeface: string): (r: Option<ThemeSlot>)
    ensures r.Some? ==> ThemeToken(r.value) == typeface
    ensures r.None? ==> forall slot: ThemeSlot :: ThemeToken(slot) != typeface
  {
    if typeface == "+mj-lt" then Some(MajorLatin)
    else if typeface == "+mn-lt" then Some(MinorLatin)
    else if typeface == "+mj-ea" then Some(MajorEa)
    else if typeface == "+mn-ea" then Some(MinorEa)
    else None
  }

  /** Tokens and slots are in one-to-one correspondence. */
  lemma ThemeTokenRoundTrip(slot: ThemeSlot, other: ThemeSlot)
    ensures SlotOfToken(ThemeToken(slot)) == Some(slot)
    ensures ThemeToken(slot) == ThemeToken(other) ==> slot == other
  {
  }

  /** `_resolve_theme_font_reference`: the value of the theme slot a
      reference names. An empty typeface, a missing theme, and a typeface
      that is not one of the four references resolve to nothing. */
  function ResolveThemeFontReference(typeface: string, theme: Option<ThemeFonts>): (r: Option<string>)
    ensures r.Some? ==> theme.Some? && exists slot: ThemeSlot ::
      ThemeToken(slot) == typeface && SlotValue(theme.value, slot) == r
  {
    if typeface == "" || theme.None? then None
    else match SlotOfToken(typeface)
      case None => None
      case Some(slot) => SlotValue(theme.value, slot)
  }

  /** Both directions of the resolution: a reference to a slot yields the
      slot's value, anything else yields nothing. */
  lemma ResolveThemeFontReferenceSpec(typeface: string, theme: Option<ThemeFonts>)
    ensures forall slot: ThemeSlot :: theme.Some? && typeface == ThemeToken(slot) ==>
      ResolveThemeFontReference(typeface, theme) == SlotValue(theme.value, slot)
    ensures (theme.None? || SlotOfToken(typeface).None?) ==> ResolveThemeFontReference(typeface, theme).None?
  {
  }

  /** The typeface a single `a:ea` or `a:latin` child contributes: nothing
      when it is missing or empty; a reference only when it resolves to a
      non-empty name; any other typeface as written. */
  function TypefaceCandidate(typeface: Option<string>, theme: Option<ThemeFonts>): (r: Option<string>)
    ensures r.Some? ==> r.value != "" && typeface.Some? && typeface.value != ""
    ensures r.Some? && typeface.value[0] != '+' ==> r == typeface
    ensures r.Some? && typeface.value[0] == '+' ==>
      theme.Some? && exists slot: ThemeSlot :: ThemeToken(slot) == typeface.value && SlotValue(theme.value, slot) == r
    ensures typeface.Some? && typeface.value != "" && typeface.value[0] != '+' ==> r == typeface
    ensures typeface.Some? && typeface.value != "" && typeface.value[0] == '+' ==>
      (r.Some? <==> ResolveThemeFontReference(typeface.value, theme).Some? && ResolveThemeFontReference(typeface.value, theme).value != "")
    ensures r.Some? && typeface.value[0] == '+' ==> r == ResolveThemeFontReference(typeface.value, theme)
  {
    match typeface
    case None => None
    case Some(t) =>
      if t == "" then None
      else if t[0] == '+' then
        var resolved := ResolveThemeFontReference(t, theme);
        if resolved.Some? && resolved.value != "" then resolved else None
      else Some(t)
  }

  /** `_get_font_from_rpr`: the East Asian typeface when it contributes,
      otherwise the Latin one. */
  function FontFromRunProps(props: Option<RunProps>, theme: Option<ThemeFonts>): (r: Option<string>)
    ensures props.None? ==> r.None?
    ensures props.Some? && TypefaceCandidate(props.value.ea, theme).Some? ==>
      r == TypefaceCandidate(props.value.ea, theme)
    ensures r.Some? ==>
      props.Some? && (r == TypefaceCandidate(props.value.ea, theme) || r == TypefaceCandidate(props.value.latin, theme))
    ensures r.None? ==>
      props.None? || (TypefaceCandidate(props.value.ea, theme).None? && TypefaceCandidate(props.value.latin, theme).None?)
  {
    match props
    case None => None
    case Some(p) =>
      var ea := TypefaceCandidate(p.ea, theme);
      if ea.Some? then ea else TypefaceCandidate(p.latin, theme)
  }

  /** `get_theme_fonts`: the typefaces of the font scheme's major and minor
      Latin and East Asian fonts. A theme part that cannot be reached or
      parsed, and every missing element, leaves the slot `None`. */
  function GetThemeFonts(theme: Option<ThemePart>): (r: ThemeFonts)
    ensures theme.None? || theme.value.fontScheme.None? ==> r == NoThemeFonts
    ensures theme.Some? && theme.value.fontScheme.Some? ==>
      var scheme := theme.value.fontScheme.value;
      && r.majorLatin == (if scheme.majorFont.Some? then scheme.majorFont.value.latin else None)
      && r.majorEa == (if scheme.majorFont.Some? then scheme.majorFont.value.ea else None)
      && r.minorLatin == (if scheme.minorFont.Some? then scheme.minorFont.value.latin else None)
      && r.minorEa == (if scheme.minorFont.Some? then scheme.minorFont.value.ea else None)
  {
    match theme
    case None => NoThemeFonts
    case Some(part) =>
      match part.fontScheme
      case None => NoThemeFonts
      case Some(scheme) =>
        var major := scheme.majorFont.GetOr(FontCollection(None, None));
        var minor := scheme.minorFont.GetOr(FontCollection(None, None));
        ThemeFonts(major.latin, major.ea, minor.latin, minor.ea)
  }

  /** The theme slot a theme font reference resolves to is the typeface the
      font scheme writes for it. */
  lemma ThemeFontsAgreeWithScheme(scheme: FontScheme, slot: ThemeSlot)
    ensures var fonts := GetThemeFonts(Some(ThemePart(Some(scheme))));
      var collection := if slot.MajorLatin? || slot.MajorEa? then scheme.majorFont else scheme.minorFont;
      var latin := slot.MajorLatin? || slot.MinorLatin?;
      ResolveThemeFontReference(ThemeToken(slot), Some(fonts)) ==
        (if collection.None? then None else if latin then collection.value.latin else collection.value.ea)
  {
  }

  predicate NonEmpty(o: Option<string>) {
    o.Some? && o.value != ""
  }

  /** The last resort: the first non-empty of the minor East Asian, major
      East Asian and minor Latin fonts, else the major Latin font as it is
      (which may be `None` or empty). */
  function ThemeFallback(theme: Option<ThemeFonts>): (r: Option<string>)
    ensures theme.None? ==> r.None?
    ensures theme.Some? ==>
      r in {theme.value.minorEa, theme.value.majorEa, theme.value.minorLatin, theme.value.majorLatin}
    ensures theme.Some? && NonEmpty(theme.value.minorEa) ==> r == theme.value.minorEa
    ensures theme.Some? && !NonEmpty(theme.value.minorEa) && NonEmpty(theme.value.majorEa) ==> r == theme.value.majorEa
    ensures theme.Some? && !NonEmpty(theme.value.minorEa) && !NonEmpty(theme.value.majorEa) && NonEmpty(theme.value.minorLatin) ==>
      r == theme.value.minorLatin
    ensures theme.Some? && !NonEmpty(theme.value.minorEa) && !NonEmpty(theme.value.majorEa) && !NonEmpty(theme.value.minorLatin) ==>
      r == theme.value.majorLatin
  {
    match theme
    case None => None
    case Some(t) =>
      if NonEmpty(t.minorEa) then t.minorEa
      else if NonEmpty(t.majorEa) then t.majorEa
      else if NonEmpty(t.minorLatin) then t.minorLatin
      else t.majorLatin
  }

  /** The first paragraph of a shape's text, when the shape has text. */
  function FirstParagraph(shape: Shape): Option<Paragraph> {
    match shape.txBody
    case None => None
    case Some(body) => if |body.paragraphs| == 0 then None else Some(body.paragraphs[0])
  }

  /** Level 1: the first run's `a:rPr`. */
  function RunLevelFont(p: Paragraph, theme: Option<ThemeFonts>): Option<string> {
    if |p.runs| == 0 then None else FontFromRunProps(p.runs[0].rPr, theme)
  }

  /** Level 1, second reading: the first run's font name as python-pptx reports it. */
  function RunNameLevelFont(p: Paragraph, theme: Option<ThemeFonts>): Option<string> {
    if |p.runs| == 0 then None else TypefaceCandidate(RunFontName(p.runs[0]), theme)
  }

  /** Level 2: the first paragraph's `a:pPr/a:defRPr`. */
  function ParagraphLevelFont(p: Paragraph, theme: Option<ThemeFonts>): Option<string> {
    match p.pPr
    case None => None
    case Some(props) => FontFromRunProps(props.defRPr, theme)
  }

  /** Level 3: the text body's `a:lstStyle/a:lvl1pPr/a:defRPr`. */
  function ListStyleLevelFont(body: TextBody, theme: Option<ThemeFonts>): Option<string> {
    match body.lstStyle
    case None => None
    case Some(style) =>
      match style.lvl1pPr
      case None => None
      case Some(props) => FontFromRunProps(props.defRPr, theme)
  }

  /** `get_shape_font`: the font of a shape's text, taken from the first
      level of the inheritance chain that names one; a shape without text,
      or whose text has no paragraph, has none. */
  function GetShapeFont(shape: Shape, theme: Option<ThemeFonts>): (r: Option<string>)
    ensures FirstParagraph(shape).None? ==> r.None?
    ensures FirstParagraph(shape).Some? ==>
      var p, body := FirstParagraph(shape).value, shape.txBody.value;
      && (RunLevelFont(p, theme).Some? ==> r == RunLevelFont(p, theme))
      && (RunLevelFont(p, theme).None? && RunNameLevelFont(p, theme).None? && ParagraphLevelFont(p, theme).Some? ==>
            r == ParagraphLevelFont(p, theme))
      && ((RunLevelFont(p, theme).None? && RunNameLevelFont(p, theme).None? && ParagraphLevelFont(p, theme).None?
           && ListStyleLevelFont(body, theme).Some?) ==> r == ListStyleLevelFont(body, theme))
      && ((RunLevelFont(p, theme).None? && RunNameLevelFont(p, theme).None? && ParagraphLevelFont(p, theme).None?
           && ListStyleLevelFont(body, theme).None?) ==> r == ThemeFallback(theme))
  {
    match FirstParagraph(shape)
    case None => None
    case Some(p) =>
      var runFont := RunLevelFont(p, theme);
      if runFont.Some? then runFont
      else
        var runName := RunNameLevelFont(p, theme);
        if runName.Some? then runName
        else
          var paragraphFont := ParagraphLevelFont(p, theme);
          if paragraphFont.Some? then paragraphFont
          else
            var listFont := ListStyleLevelFont(shape.txBody.value, theme);
            if listFont.Some? then listFont
            else ThemeFallback(theme)
  }

  /** The second reading of the first run never decides anything: whenever
      the run's reported font name would contribute, its `a:rPr` already has. */
  lemma RunNameLevelIsRedundant(p: Paragraph, theme: Option<ThemeFonts>)
    ensures RunNameLevelFont(p, theme).Some? ==> RunLevelFont(p, theme).Some?
  {
  }

  /** A typeface written in some run property of the shape's inheritance
      chain or held by a theme slot. */
  ghost predicate ChainOrThemeFont(shape: Shape, theme: Option<ThemeFonts>, name: string)
    requires FirstParagraph(shape).Some?
  {
    var p, body := FirstParagraph(shape).value, shape.txBody.value;
    var written := RunPropsOfChain(p, body);
    || (exists i | 0 <= i < |written| :: written[i].ea == Some(name) || written[i].latin == Some(name))
    || (theme.Some? && exists slot: ThemeSlot :: SlotValue(theme.value, slot) == Some(name))
  }

  /** The run properties the chain reads, highest priority first. */
  function RunPropsOfChain(p: Paragraph, body: TextBody): (r: seq<RunProps>)
    ensures |r| <= 3
  {
    var run := if |p.runs| > 0 && p.runs[0].rPr.Some? then [p.runs[0].rPr.value] else [];
    var para := if p.pPr.Some? && p.pPr.value.defRPr.Some? then [p.pPr.value.defRPr.value] else [];
    var list := if body.lstStyle.Some? && body.lstStyle.value.lvl1pPr.Some? && body.lstStyle.value.lvl1pPr.value.defRPr.Some?
      then [body.lstStyle.value.lvl1pPr.value.defRPr.value] else [];
    run + para + list
  }

  lemma FontFromRunPropsProvenance(props: Option<RunProps>, theme: Option<ThemeFonts>)
    ensures FontFromRunProps(props, theme).Some? ==>
      var name := FontFromRunProps(props, theme).value;
      || props.value.ea == Some(name) || props.value.latin == Some(name)
      || (theme.Some? && exists slot: ThemeSlot :: SlotValue(theme.value, slot) == Some(name))
  {
  }

  lemma TypefaceCandidateProvenance(typeface: Option<string>, theme: Option<ThemeFonts>)
    ensures TypefaceCandidate(typeface, theme).Some? ==>
      var name := TypefaceCandidate(typeface, theme).value;
      || typeface == Some(name)
      || (theme.Some? && exists slot: ThemeSlot :: SlotValue(theme.value, slot) == Some(name))
  {
  }

  /** A resolved font is never invented: it is a typeface the chain writes
      or the value of a theme slot. */
  lemma {:induction false} GetShapeFontProvenance(shape: Shape, theme: Option<ThemeFonts>)
    requires FirstParagraph(shape).Some?
    ensures GetShapeFont(shape, theme).Some? ==> ChainOrThemeFont(shape, theme, GetShapeFont(shape, theme).value)
  {
    var p, body := FirstParagraph(shape).value, shape.txBody.value;
    var written := RunPropsOfChain(p, body);
    var r := GetShapeFont(shape, theme);
    if r.Some? {
      var name := r.value;
      RunNameLevelIsRedundant(p, theme);
      if RunLevelFont(p, theme).Some? {
        FontFromRunPropsProvenance(p.runs[0].rPr, theme);
        WrittenWitness(written, p.runs[0].rPr.value, name);
      } else if ParagraphLevelFont(p, theme).Some? {
        FontFromRunPropsProvenance(p.pPr.value.defRPr, theme);
        WrittenWitness(written, p.pPr.value.defRPr.value, name);
      } else if ListStyleLevelFont(body, theme).Some? {
        FontFromRunPropsProvenance(body.lstStyle.value.lvl1pPr.value.defRPr, theme);
        WrittenWitness(written, body.lstStyle.value.lvl1pPr.value.defRPr.value, name);
      } else {
        var t := theme.value;
        if NonEmpty(t.minorEa) {
          assert SlotValue(t, MinorEa) == Some(name);
        } else if NonEmpty(t.majorEa) {
          assert SlotValue(t, MajorEa) == Some(name);
        } else if NonEmpty(t.minorLatin) {
          assert SlotValue(t, MinorLatin) == Some(name);
        } else {
          assert SlotValue(t, MajorLatin) == Some(name);
        }
      }
    }
  }

  lemma WrittenWitness(written: seq<RunProps>, props: RunProps, name: string)
    requires props in written
    ensures props.ea == Some(name) || props.latin == Some(name) ==>
      exists i | 0 <= i < |written| :: written[i].ea == Some(name) || written[i].latin == Some(name)
  {
  }

  /** A level that names a font hides every lower level: two shapes whose
      first paragraphs agree on the first run resolve alike, whatever their
      paragraph properties and list styles. */
  lemma RunLevelMasksLowerLevels(shape: Shape, other: Shape, theme: Option<ThemeFonts>)
    requires FirstParagraph(shape).Some? && FirstParagraph(other).Some?
    requires FirstParagraph(shape).value.runs != [] && FirstParagraph(other).value.runs != []
    requires FirstParagraph(shape).value.runs[0] == FirstParagraph(other).value.runs[0]
    requires RunLevelFont(FirstParagraph(shape).value, theme).Some?
    ensures GetShapeFont(shape, theme) == GetShapeFont(other, theme) == RunLevelFont(FirstParagraph(shape).value, theme)
  {
  }

  /** Without a theme, and without a typeface in the chain that contributes,
      nothing is found. */
  lemma NoThemeNoChainNoFont(shape: Shape)
    requires FirstParagraph(shape).Some?
    requires RunPropsOfChain(FirstParagraph(shape).value, shape.txBody.value) == []
    ensures GetShapeFont(shape, None).None?
  {
  }

  /** A resolved name starts with `+` only when a theme slot holds such a
      name: references are always replaced by what they refer to, never
      returned as found. */
  lemma {:induction false} NoUnresolvedReference(shape: Shape, theme: Option<ThemeFonts>)
    requires theme.Some? ==> forall slot: ThemeSlot :: NonEmpty(SlotValue(theme.value, slot)) ==> SlotValue(theme.value, slot).value[0] != '+'
    ensures var r := GetShapeFont(shape, theme); r.Some? && r.value != "" ==> r.value[0] != '+'
  {
    var r := GetShapeFont(shape, theme);
    if r.Some? && r.value != "" && FirstParagraph(shape).Some? {
      var p, body := FirstParagraph(shape).value, shape.txBody.value;
      RunNameLevelIsRedundant(p, theme);
      if RunLevelFont(p, theme).Some? {
        NoReferenceFromRunProps(p.runs[0].rPr, theme);
      } else if ParagraphLevelFont(p, theme).Some? {
        NoReferenceFromRunProps(p.pPr.value.defRPr, theme);
      } else if ListStyleLevelFont(body, theme).Some? {
        NoReferenceFromRunProps(body.lstStyle.value.lvl1pPr.value.defRPr, theme);
      } else {
        var t := theme.value;
        if NonEmpty(t.minorEa) {
          assert NonEmpty(SlotValue(t, MinorEa));
        } else if NonEmpty(t.majorEa) {
          assert NonEmpty(SlotValue(t, MajorEa));
        } else if NonEmpty(t.minorLatin) {
          assert NonEmpty(SlotValue(t, MinorLatin));
        } else {
          assert NonEmpty(SlotValue(t, MajorLatin));
        }
      }
    }
  }

  lemma NoReferenceFromRunProps(props: Option<RunProps>, theme: Option<ThemeFonts>)
    requires theme.Some? ==> forall slot: ThemeSlot :: NonEmpty(SlotValue(theme.value, slot)) ==> SlotValue(theme.value, slot).value[0] != '+'
    ensures var r := FontFromRunProps(props, theme); r.Some? ==> r.value[0] != '+'
  {
  }
}
