/** The two process-wide caches of font_size_calculator.py, held in one
    explicit state record: the font-name index (built once, then reused
    until cleared) and the glyph cache of fonts loaded at a pixel size,
    keyed by (path, pixel size). Loading and measuring glyphs belong to the
    rendering library and are given as a `GlyphMetrics` value. */
module FontCacheState {
  import opened Wrappers
  import opened FontNameIndex

  /** Dots per inch of the point-to-pixel conversion: pixels = points * 96 / 72. */
  const DefaultDpi: int := 96

  /** A font file loaded at a pixel size; what the glyph cache holds. */
  datatype SizedFont = SizedFont(path: string, pixelSize: int)

  /** The rendering back end: the font paths that load, and the width in
      pixels of the bounding box a loaded font gives a text. */
  datatype GlyphMetrics = GlyphMetrics(loadable: set<string>, inkWidth: (SizedFont, string) -> real)

  /** Both caches. */
  datatype FontCaches = FontCaches(nameIndex: NameIndex, glyphCache: map<(string, int), SizedFont>)

  /** The caches at process start. */
  const EmptyCaches: FontCaches := FontCaches(map[], map[])

  /** `initialize_font_system`: builds the index from `dir` only while the
      index is empty; an already populated index is kept whatever `dir` is. */
  function InitializeFontSystem(c: FontCaches, dir: FontDirectory): (r: FontCaches)
    ensures r.glyphCache == c.glyphCache
    ensures c.nameIndex != map[] ==> r == c
    ensures c.nameIndex == map[] ==> r.nameIndex == BuildFontNameMapping(dir)
  {
    if c.nameIndex != map[] then c else c.(nameIndex := BuildFontNameMapping(dir))
  }

  /** `get_font_name_mapping`: the cached index, initialised from `dir` first
      when it is empty. A path that is empty or not a directory builds the
      empty index, which is what skipping initialisation leaves. */
  function GetFontNameMapping(c: FontCaches, dir: FontDirectory): (r: (NameIndex, FontCaches))
    ensures r.1 == InitializeFontSystem(c, dir)
    ensures r.0 == r.1.nameIndex
  {
    var c' := InitializeFontSystem(c, dir);
    (c'.nameIndex, c')
  }

  /** `clear_font_cache`: empties the glyph cache and the name index. */
  function ClearFontCache(c: FontCaches): (r: FontCaches)
    ensures r.nameIndex == map[] && r.glyphCache == map[]
  {
    EmptyCaches
  }

  /** Initialisation is a no-op once it has happened: a second call, with
      the same directory or, once the index is non-empty, with any other,
      leaves the caches as the first call left them. */
  lemma InitializeIdempotent(c: FontCaches, dir: FontDirectory, other: FontDirectory)
    ensures InitializeFontSystem(InitializeFontSystem(c, dir), dir) == InitializeFontSystem(c, dir)
    ensures InitializeFontSystem(c, dir).nameIndex != map[] ==>
      InitializeFontSystem(InitializeFontSystem(c, dir), other) == InitializeFontSystem(c, dir)
  {
  }

  /** After a clear, the next initialisation indexes the directory it is
      given: nothing of an earlier directory's scan survives the reset. */
  lemma ClearThenInitializeIndexesNewDirectory(c: FontCaches, dir: FontDirectory)
    ensures InitializeFontSystem(ClearFontCache(c), dir) == FontCaches(BuildFontNameMapping(dir), map[])
  {
  }

  /** `int(size_pt * 96 / 72)`: the pixel size, truncated toward zero. */
  function PixelSize(sizePt: int): (px: int)
    ensures sizePt >= 0 ==> 0 <= px && 72 * px <= sizePt * DefaultDpi < 72 * (px + 1)
    ensures sizePt < 0 ==> px <= 0 && 72 * (px - 1) < sizePt * DefaultDpi <= 72 * px
  {
    var scaled := sizePt * DefaultDpi;
    if scaled >= 0 then scaled / 72 else -((-scaled) / 72)
  }

  /** A larger point size never gets a smaller pixel size. */
  lemma PixelSizeMonotone(a: int, b: int)
    requires a <= b
    ensures PixelSize(a) <= PixelSize(b)
  {
  }

  /** Loading without a cache: the font at the pixel size of `sizePt`, or
      `None` when the file does not load. */
  function LoadFont(m: GlyphMetrics, path: string, sizePt: int): Option<SizedFont> {
    if path in m.loadable then Some(SizedFont(path, PixelSize(sizePt))) else None
  }

  /** Every cached font is the font its key names, and its file loads. */
  ghost predicate Coherent(m: GlyphMetrics, c: FontCaches) {
    forall k | k in c.glyphCache :: c.glyphCache[k] == SizedFont(k.0, k.1) && k.0 in m.loadable
  }

  /** `get_font`: a cache hit returns the cached font; a miss loads the font
      and caches it, and a load failure returns `None` and caches nothing.
      The cache only grows, and a coherent cache answers exactly what a
      fresh load would. */
  function GetFont(m: GlyphMetrics, c: FontCaches, path: string, sizePt: int): (r: (Option<SizedFont>, FontCaches))
    ensures r.1.nameIndex == c.nameIndex
    ensures forall k | k in c.glyphCache :: k in r.1.glyphCache && r.1.glyphCache[k] == c.glyphCache[k]
    ensures forall k | k in r.1.glyphCache :: k in c.glyphCache || k == (path, PixelSize(sizePt))
    ensures r.0.Some? ==> (path, PixelSize(sizePt)) in r.1.glyphCache && r.1.glyphCache[(path, PixelSize(sizePt))] == r.0.value
    ensures r.0.None? ==> r.1 == c
    ensures Coherent(m, c) ==> Coherent(m, r.1) && r.0 == LoadFont(m, path, sizePt)
  {
    var key := (path, PixelSize(sizePt));
    if key in c.glyphCache then
      (Some(c.glyphCache[key]), c)
    else if path in m.loadable then
      var font := SizedFont(path, key.1);
      (Some(font), c.(glyphCache := c.glyphCache[key := font]))
    else
      (None, c)
  }

  /** Asking twice is asking once: the second call hits the cache the first
      one filled, returns the same font and changes nothing; and two point
      sizes with the same pixel size share one cache entry. */
  lemma GetFontRepeatable(m: GlyphMetrics, c: FontCaches, path: string, sizePt: int, otherPt: int)
    ensures GetFont(m, GetFont(m, c, path, sizePt).1, path, sizePt) == GetFont(m, c, path, sizePt)
    ensures PixelSize(otherPt) == PixelSize(sizePt) ==> GetFont(m, c, path, otherPt) == GetFont(m, c, path, sizePt)
  {
  }

  /** Measuring without a cache: the bounding-box width of `text` in the
      font at the pixel size of `sizePt`, or `None` when the font does not load. */
  function Measure(m: GlyphMetrics, path: string, text: string, sizePt: int): Option<real> {
    match LoadFont(m, path, sizePt)
    case None => None
    case Some(font) => Some(m.inkWidth(font, text))
  }

  /** `measure_text_width`: the bounding-box width through the glyph cache.
      On a coherent cache the answer is the uncached measurement, so the
      cache changes how often fonts load, never what is measured. */
  function MeasureTextWidth(m: GlyphMetrics, c: FontCaches, text: string, path: string, sizePt: int): (r: (Option<real>, FontCaches))
    ensures r.1 == GetFont(m, c, path, sizePt).1
    ensures Coherent(m, c) ==> Coherent(m, r.1) && r.0 == Measure(m, path, text, sizePt)
    ensures r.0.Some? <==> GetFont(m, c, path, sizePt).0.Some?
  {
    var (font, c') := GetFont(m, c, path, sizePt);
    match font
    case None => (None, c')
    case Some(f) => (Some(m.inkWidth(f, text)), c')
  }

  /** The empty caches are coherent, and a clear restores coherence. */
  lemma EmptyCachesCoherent(m: GlyphMetrics, c: FontCaches)
    ensures Coherent(m, EmptyCaches)
    ensures Coherent(m, ClearFontCache(c))
  {
  }
}
