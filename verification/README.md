# Font fitting and font resolution for PowerPoint placeholders, in Dafny

This project models the core of a tool that fills PowerPoint templates from a JSON payload and picks a font size that fits the text into each placeholder. Three parts are covered:

- **Font-size calculation** (`msoffice/pptx/font_size_calculator.py`):
  - the font-name index, built from the name tables of the font files in a directory;
  - the two process-wide caches: the name index and the glyph cache keyed by `(path, pixel size)`;
  - `find_font_file`: an exact lookup by name, then a file-name heuristic;
  - `calculate_fitting_font_size`: a downward scan from a size ceiling to 6 points.
- **Font resolution** (`msoffice/pptx/pptx_get_shape_font.py`):
  - theme font references (`+mj-lt`, `+mn-ea`, …);
  - the theme's font scheme;
  - the inheritance chain that yields a shape's font: first run, paragraph defaults, list style, theme;
  - the line and paragraph spacing a placeholder inherits from its slide layout (section 21.1.2.2 of ISO/IEC 29500-1: `a:lnSpc`, `a:spcPct`, `a:spcPts`).
- **Template filling** (`msoffice/pptx/pptx_fill_data_into_template.py`):
  - splitting a list item into a label and a body at a full-width or ASCII colon;
  - the bold/plain runs a list item becomes;
  - the font-size ceiling;
  - validation of `maxFontSize` and `slideIndex`.

## How the model is built

The Python globals become an explicit state record, `FontCacheState.FontCaches`. Every operation that touches the caches takes that record and returns the next one.

The file system is given as data:

- a `FontDirectory` is not-a-directory, unlistable, or a listing of entries;
- each entry carries the name records the font parser would read from it;
- a set of paths stands for the files that exist.

The rendering library is also given as data. A `GlyphMetrics` value holds the paths that load and an ink-width function. The XML tree is a set of records whose optional children are `Option` fields. JSON values are a datatype.

| file | module | models |
|---|---|---|
| `wrappers.dfy` | `Wrappers` | `Option`, `Result` |
| `text.dfy` | `Text` | `lower` (ASCII), `isspace`, `lstrip`/`rstrip`/`strip`, `find`, `replace(p, "")`, substring test |
| `font_name_index.dfy` | `FontNameIndex` | `_get_font_names_from_file`'s filter, `_build_font_name_mapping`, and a reference definition (contributing files, deduplicated) |
| `font_cache_state.dfy` | `FontCacheState` | `initialize_font_system`, `get_font_name_mapping`, `clear_font_cache`, `get_font`, `measure_text_width`, and the point-to-pixel conversion |
| `font_file_lookup.dfy` | `FontFileLookup` | `find_font_file` |
| `size_fitting.dfy` | `SizeFitting` | `calculate_fitting_font_size` |
| `shape_xml.dfy` | `ShapeXml` | the DrawingML elements that are read |
| `shape_font.dfy` | `ShapeFont` | `_resolve_theme_font_reference`, `get_theme_fonts`, `get_shape_font`, `_get_font_from_rpr` |
| `paragraph_defaults.dfy` | `ParagraphDefaultsResolver` | `get_placeholder_paragraph_defaults` |
| `fill_template.dfy` | `FillTemplate` | `_split_label_body`, the runs of `_fill_list`, the size ceilings of `_fill_text`/`_fill_list`, the request checks of `pptx_fill_data_from_json` |

### Behaviour of the code worth knowing

- **An aborting font file ends the scan.** The directory loop sits inside one `except Exception`. An error the file reader does not catch, such as a sub-directory named `x.ttf`, leaves the loop, and the index keeps only the files before it: see `FontNameIndex.ScanStopsAtFirstAbort`.
- **One name index.** The name index is one process-wide map, not one map per directory. Once it is non-empty, initialising from another directory keeps it: see `FontCacheState.InitializeIdempotent`.
- **A ceiling below 6.** When the ceiling is below 6 the scan never runs, and the result is 6, which exceeds the ceiling: see `SizeFitting.CalculateFittingFontSize`.
- **An empty item list.** The spacing term uses `len(items) - 1` gaps, which is -1 for an empty list.
- **Line counts.** The line count is `max(1, floor((w + W - 1) / W))`. This is the ceiling of `w / W` only when the widths are whole pixels. With a fractional available width it can count one line too few: see `SizeFitting.LineCountUndercountsFractionalWidth`. The model keeps the formula as written.

## Model

| member | source | states |
|---|---|---|
| FontNameIndex.FontNamesFromFile | msoffice/pptx/font_size_calculator.py:79-109 | only resources with a non-empty full or family name are kept, and every one of them is |
| FontNameIndex.NamelessRecordsAddNothing | msoffice/pptx/font_size_calculator.py:185-200 | a resource with neither name adds no key, so filtering such resources out does not change the index |
| FontNameIndex.BuildFontNameMappingSpec | msoffice/pptx/font_size_calculator.py:164-212 | a missing or unlistable directory gives the empty index; a key is present iff some font file (`.ttf`/`.ttc`/`.otf`, any case) the scan got through, before the first file whose reading aborts, carries that lower-cased family or full name; its list is those contributing files deduplicated, and each is a font file of the listing |
| FontNameIndex.BuildFontNameMapping | msoffice/pptx/font_size_calculator.py:164-212 | a path that is not a listable directory gives the empty index; every list of the index is non-empty and names only font files |
| FontNameIndex.IndexEntriesSpec | msoffice/pptx/font_size_calculator.py:180-200 | over entries that are all read, a key is present iff one of them contributes it, and it lists the contributing font files, each once |
| FontNameIndex.ScanLength | msoffice/pptx/font_size_calculator.py:180-210 | the scan gets through every entry before the first font file whose reading aborts, and stops there |
| FontNameIndex.ScanStopsAtFirstAbort | msoffice/pptx/font_size_calculator.py:179-212 | with an aborting font file after a prefix of non-aborting entries, the index is exactly that of the prefix: nothing after the abort is indexed, and what came before is kept |
| FontNameIndex.ScanReadsEverythingWithoutAbort | msoffice/pptx/font_size_calculator.py:180-200 | a listing without an aborting font file is indexed in full |
| FontNameIndex.AbortedEntryHidesLaterFonts | msoffice/pptx/font_size_calculator.py:180-210 | an aborting `a.ttf` listed before a readable `b.ttf` family `Foo` leaves the index empty |
| FontNameIndex.IndexListsDistinctAndOrdered | msoffice/pptx/font_size_calculator.py:185-200 | each list has no repeats and keeps the order in which files first contributed the key |
| FontNameIndex.IndexEntriesLookup | msoffice/pptx/font_size_calculator.py:180-200 | the loop's result under any key equals the reference definition: contributing files in listing order, first occurrences only |
| FontNameIndex.DedupKeepsFirstOccurrenceOrder | msoffice/pptx/font_size_calculator.py:191-200 | append-if-absent keeps elements in the order of their first occurrence |
| FontCacheState.InitializeFontSystem | msoffice/pptx/font_size_calculator.py:112-143 | a non-empty index is kept unchanged; an empty one is replaced by the index built from the directory; the glyph cache is untouched |
| FontCacheState.InitializeIdempotent | msoffice/pptx/font_size_calculator.py:133-138 | a second initialisation changes nothing, and once the index is non-empty even another directory changes nothing |
| FontCacheState.GetFontNameMapping | msoffice/pptx/font_size_calculator.py:215-235 | returns the index after initialising from the directory when it was empty |
| FontCacheState.ClearFontCache | msoffice/pptx/font_size_calculator.py:271-296 | both the glyph cache and the name index are emptied |
| FontCacheState.ClearThenInitializeIndexesNewDirectory | msoffice/pptx/font_size_calculator.py:112-143 | after a clear, the next initialisation indexes exactly the directory it is given |
| FontCacheState.PixelSize | msoffice/pptx/font_size_calculator.py:254-256 | `int(pt * 96 / 72)`: the pixel size is the quotient truncated toward zero, for either sign |
| FontCacheState.PixelSizeMonotone | msoffice/pptx/font_size_calculator.py:254-256 | a larger point size never has a smaller pixel size |
| FontCacheState.GetFont | msoffice/pptx/font_size_calculator.py:243-268 | a hit returns the cached font, a miss loads and caches it, a failed load returns None and caches nothing; the cache only grows; on a coherent cache the answer is what an uncached load gives |
| FontCacheState.GetFontRepeatable | msoffice/pptx/font_size_calculator.py:258-260 | asking again returns the same font and changes nothing; point sizes with the same pixel size share one entry |
| FontCacheState.MeasureTextWidth | msoffice/pptx/font_size_calculator.py:299-316 | None exactly when the font does not load; on a coherent cache the width is the uncached measurement, so caching never changes a result |
| FontCacheState.EmptyCachesCoherent | msoffice/pptx/font_size_calculator.py:271-282 | the empty caches, and the caches after a clear, are coherent |
| FontFileLookup.FirstExisting | msoffice/pptx/font_size_calculator.py:370-375 | the first listed file that exists, or None iff none exists |
| FontFileLookup.NormalisedRequest | msoffice/pptx/font_size_calculator.py:383 | the normalised request is the name with its spaces and hyphens left out and every other character kept in order |
| FontFileLookup.NormalisedFileName | msoffice/pptx/font_size_calculator.py:384-391 | the normalised file name has no space, hyphen or upper-case ASCII letter and is no longer than the file name |
| FontFileLookup.NormalisedFileNameOfFontFile | msoffice/pptx/font_size_calculator.py:381-391 | a file `stem + ext` with a dot-free stem and `.ttf`/`.ttc`/`.otf` in any case is a font file, and normalises to the lower-cased stem less its spaces and hyphens: the extension goes and every other character stays in order |
| FontFileLookup.FuzzyFallbackFindsFontFile | msoffice/pptx/font_size_calculator.py:369-396 | with no existing indexed file for the name, a font file whose normalised stem contains the normalised request is returned when no earlier entry is accepted |
| FontFileLookup.FirstHeuristicMatch | msoffice/pptx/font_size_calculator.py:380-396 | the first font file of the listing whose normalised name contains, or is contained in, the normalised request |
| FontFileLookup.FindFontFile | msoffice/pptx/font_size_calculator.py:347-401 | an empty name or a non-directory gives None without touching the caches; otherwise the index is initialised, an existing indexed file wins, and the heuristic is tried only when none exists; a result is always an indexed existing file or a heuristic match |
| FontFileLookup.IndexedNameWins | msoffice/pptx/font_size_calculator.py:369-375 | a name the index knows is resolved through the index, to a file at or before any existing listed file |
| FontFileLookup.BlankRequestMatchesFirstFontFile | msoffice/pptx/font_size_calculator.py:380-396 | a request of only spaces and hyphens normalises to "", which every file name contains, so the first font file is returned |
| SizeFitting.ItemLineCount | msoffice/pptx/font_size_calculator.py:518-519 | at least 1 line; above 1 it is the floor of `(w + W - 1) / W` |
| SizeFitting.LineCountIsCeilingForWholePixels | msoffice/pptx/font_size_calculator.py:518-519 | with whole-pixel widths the count is the fewest lines of width W that hold w |
| SizeFitting.LineCountUndercountsFractionalWidth | msoffice/pptx/font_size_calculator.py:496-519 | at 100.1 pt a 134-pixel text, wider than the line, is counted as one line |
| SizeFitting.TotalLines | msoffice/pptx/font_size_calculator.py:513-521 | the total is at least the item count; it fails iff an item fails to measure or the width is zero, with the error of the first failing item; one item gives that item's line count |
| SizeFitting.TotalLinesConcat | msoffice/pptx/font_size_calculator.py:513-520 | the total of two lists of items is the sum of their totals, so the total is the sum of the items' line counts |
| SizeFitting.LineHeight | msoffice/pptx/font_size_calculator.py:526-537 | fixed spacing is the line height itself; ratio spacing at single spacing is factor x size, and 0 at size 0 |
| SizeFitting.LineSpacingMultipliesSingleHeight | msoffice/pptx/font_size_calculator.py:433-435 | ratio spacing multiplies the single-spaced line height by the ratio, so with `LineHeight` the height is size x factor x ratio (1.5 gives one and a half single lines) |
| SizeFitting.LineHeightScales | msoffice/pptx/font_size_calculator.py:526-537 | fixed spacing gives one line height at every size; ratio spacing gives a line height proportional to the size |
| SizeFitting.RequiredHeight | msoffice/pptx/font_size_calculator.py:539-544 | one item needs lines x line height; an empty item list subtracts one space-before and space-after |
| SizeFitting.RequiredHeightIncrements | msoffice/pptx/font_size_calculator.py:539-544 | each extra line adds one line height, and each extra item adds one space-before plus one space-after |
| SizeFitting.ScanDown | msoffice/pptx/font_size_calculator.py:508-563 | the answer is in [6, ceiling], every larger size overflowed, and an answer above 6 fits; a failure is the error of a size all of whose larger sizes overflowed |
| SizeFitting.CalculateFittingFontSize | msoffice/pptx/font_size_calculator.py:409-563 | an unresolved font fails with FontNotFound; otherwise the result is the scan from the ceiling; a ceiling below 6 gives 6 |
| SizeFitting.ScanFindsLargestFit | msoffice/pptx/font_size_calculator.py:508-563 | the scan returns s iff s is the largest fitting size in [6, ceiling] with every larger size overflowing, or s is 6 and every size in range overflows |
| SizeFitting.ScanFailsAtFirstError | msoffice/pptx/font_size_calculator.py:513-517 | a measurement error at a size whose larger sizes all overflowed is the scan's result |
| SizeFitting.TotalLinesMonotone | msoffice/pptx/font_size_calculator.py:513-521 | when widths grow with the size, so does the total line count |
| SizeFitting.FitsDownwardClosed | msoffice/pptx/font_size_calculator.py:526-544 | when widths grow with the size and line heights are non-negative, a fitting size makes every smaller size fit |
| SizeFitting.InkWidthGrowthGivesWidthsGrowWithSize | msoffice/pptx/font_size_calculator.py:254-316 | glyph widths that grow with the pixel size give measurements that grow with the point size |
| ShapeFont.SlotOfToken | msoffice/pptx/pptx_get_shape_font.py:57-64 | a typeface names a slot exactly when it is that slot's token |
| ShapeFont.ThemeTokenRoundTrip | msoffice/pptx/pptx_get_shape_font.py:57-62 | tokens and slots correspond one to one |
| ShapeFont.ResolveThemeFontReference | msoffice/pptx/pptx_get_shape_font.py:35-68 | a resolved name is the value of the slot whose token is the typeface, and only with a theme |
| ShapeFont.ResolveThemeFontReferenceSpec | msoffice/pptx/pptx_get_shape_font.py:53-68 | a slot's token resolves to the slot's value; no theme, or a non-token, resolves to nothing |
| ShapeFont.TypefaceCandidate | msoffice/pptx/pptx_get_shape_font.py:172-194 | a non-empty typeface without `+` is returned as written; a `+` typeface yields a font iff it resolves to a non-empty name, and then yields exactly that name; a missing or empty one contributes nothing |
| ShapeFont.FontFromRunProps | msoffice/pptx/pptx_get_shape_font.py:167-195 | East Asian wins when it contributes; otherwise Latin; nothing when neither does |
| ShapeFont.GetThemeFonts | msoffice/pptx/pptx_get_shape_font.py:76-135 | each slot is the typeface of the matching major/minor latin/ea element, None when any link is missing or the theme cannot be read |
| ShapeFont.ThemeFontsAgreeWithScheme | msoffice/pptx/pptx_get_shape_font.py:57-66 | a reference resolved against the theme's fonts gives the typeface the font scheme writes for that slot |
| ShapeFont.ThemeFallback | msoffice/pptx/pptx_get_shape_font.py:254-262 | the first non-empty of minor_ea, major_ea, minor_latin, else major_latin as it is; nothing without a theme |
| ShapeFont.GetShapeFont | msoffice/pptx/pptx_get_shape_font.py:138-262 | no text or no paragraph gives None; otherwise the first level that yields a font decides, in the order run rPr, run font name, paragraph defRPr, list-style defRPr, theme fallback |
| ShapeFont.RunNameLevelIsRedundant | msoffice/pptx/pptx_get_shape_font.py:213-220 | the run's reported font name never decides: whenever it would yield a font, the run's rPr already has |
| ShapeFont.GetShapeFontProvenance | msoffice/pptx/pptx_get_shape_font.py:197-260 | a resolved font is a typeface written in the chain's run properties or a theme slot's value |
| ShapeFont.RunLevelMasksLowerLevels | msoffice/pptx/pptx_get_shape_font.py:199-208 | a first run that yields a font decides, whatever the paragraph and list-style properties are |
| ShapeFont.NoThemeNoChainNoFont | msoffice/pptx/pptx_get_shape_font.py:252-262 | with no theme and no run properties in the chain, the result is None |
| ShapeFont.NoUnresolvedReference | msoffice/pptx/pptx_get_shape_font.py:176-192 | a result starting with `+` can come only from a theme slot holding one: references are never returned unresolved |
| ParagraphDefaultsResolver.FindLayoutPlaceholder | msoffice/pptx/pptx_get_shape_font.py:377-382 | the first layout placeholder with the same idx, or None iff there is none |
| ParagraphDefaultsResolver.DecodeLineSpacing | msoffice/pptx/pptx_get_shape_font.py:408-426 | spcPct wins and gives ratio val/100000; otherwise spcPts gives fixed points val/100; otherwise unset |
| ParagraphDefaultsResolver.DecodeSpacingPoints | msoffice/pptx/pptx_get_shape_font.py:431-452 | only spcPts is read, as val/100; a percentage or no element gives 0 |
| ParagraphDefaultsResolver.InheritedLevel | msoffice/pptx/pptx_get_shape_font.py:369-402 | no idx gives nothing; a level is found iff the first layout placeholder with the shape's idx has a txBody with a lstStyle holding lvl1pPr, and it is that lvl1pPr |
| ParagraphDefaultsResolver.GetPlaceholderParagraphDefaults | msoffice/pptx/pptx_get_shape_font.py:361-454 | any missing link gives (None, "default", 0.0, 0.0); otherwise the fields are the decoded lnSpc, spcBef and spcAft of the first list level; the type is "default" iff the value is None |
| ParagraphDefaultsResolver.DecodeEncodeLineSpacing | msoffice/pptx/pptx_get_shape_font.py:418-426 | reading back a written whole-unit spacing gives that spacing |
| ParagraphDefaultsResolver.EncodeDecodeLineSpacing | msoffice/pptx/pptx_get_shape_font.py:408-426 | writing back what was read from a schema-valid `a:lnSpc` gives that element |
| ParagraphDefaultsResolver.UnitConversionExamples | msoffice/pptx/pptx_get_shape_font.py:418-448 | 100000 is 1.0, 150000 is 1.5, 1400 is 14 points, spcPct beats spcPts, and a percentage space-before is 0 |
| ParagraphDefaultsResolver.OnlyFirstMatchMatters | msoffice/pptx/pptx_get_shape_font.py:377-382 | the shape's own text and later layout placeholders never change the result |
| FillTemplate.SeparatorIndex | msoffice/pptx/pptx_fill_data_into_template.py:79-81 | the first full-width colon when there is one anywhere, else the first ASCII colon, else none |
| FillTemplate.SplitLabelBody | msoffice/pptx/pptx_fill_data_into_template.py:71-86 | no separator gives (text, ""); otherwise the label is the text before the separator and the body is the rest after it, less only its leading whitespace |
| FillTemplate.SplitReassembles | msoffice/pptx/pptx_fill_data_into_template.py:84-86 | label, separator, dropped whitespace and body concatenate to the text |
| FillTemplate.JoinThenSplit | msoffice/pptx/pptx_fill_data_into_template.py:71-86 | joining a separator-free label, a colon, whitespace and a body splits back into that label and body |
| FillTemplate.FullWidthColonIsPreferred | msoffice/pptx/pptx_fill_data_into_template.py:79-81 | with both colons present the full-width one splits, and the ASCII colon stays in the label |
| FillTemplate.FirstAsciiColonSplits | msoffice/pptx/pptx_fill_data_into_template.py:81-86 | only the first ASCII colon splits; later ones stay in the body |
| FillTemplate.ListItemRuns | msoffice/pptx/pptx_fill_data_into_template.py:204-216 | a bold run of the stripped label, or of the stripped item when the label is empty; a second, plain run of a full-width colon and the body exactly when the body is non-empty |
| FillTemplate.ListItemOfLabelAndBody | msoffice/pptx/pptx_fill_data_into_template.py:207-216 | an item `label: body` becomes a bold label and a plain body behind a full-width colon, whichever colon it used |
| FillTemplate.ListItemWithoutSeparator | msoffice/pptx/pptx_fill_data_into_template.py:207-211 | an item without a colon is a single bold run |
| FillTemplate.LeadingSeparatorEmptiesLabel | msoffice/pptx/pptx_fill_data_into_template.py:84-86 | an item that starts with an ASCII colon splits into an empty label and the rest |
| FillTemplate.LeadingSeparatorRepeatsBody | msoffice/pptx/pptx_fill_data_into_template.py:207-216 | an item that starts with its colon shows the body twice: the bold run holds the whole item and the plain run repeats the body |
| FillTemplate.MaxSizeForText | msoffice/pptx/pptx_fill_data_into_template.py:112-115 | a non-zero explicit maximum wins; otherwise 36 for a title and 24 otherwise; never 0 |
| FillTemplate.MaxSizeForList | msoffice/pptx/pptx_fill_data_into_template.py:218 | a non-zero explicit maximum wins; otherwise 24 |
| FillTemplate.ListSizedLikeBodyText | msoffice/pptx/pptx_fill_data_into_template.py:112-115 | a list gets the ceiling of a non-title text, which a title never lowers |
| FillTemplate.MaxFontSizeSetting | msoffice/pptx/pptx_fill_data_into_template.py:270-273 | kept iff it is an integer (booleans count, as 0 or 1); anything else is discarded |
| FillTemplate.TextCeilingOfPlaceholder | msoffice/pptx/pptx_fill_data_into_template.py:269-280 | a non-zero integer maxFontSize is the ceiling; a missing, falsy or non-integer one gives 36 for a truthy isTitle and 24 otherwise |
| FillTemplate.ParseInt | msoffice/pptx/pptx_fill_data_into_template.py:245 | a string is accepted iff, once stripped, it is an optional sign and between 1 and 4300 ASCII digits (CPython's conversion limit); its value is the signed digit value, negative only with a `-` |
| FillTemplate.ParseIntOfSignedDigits | msoffice/pptx/pptx_fill_data_into_template.py:245 | every string that strips to an optional sign and at most 4300 digits parses, to the signed value of the digits (so `" 2 "` is 2) |
| FillTemplate.TooManyDigitsRefused | msoffice/pptx/pptx_fill_data_into_template.py:245-247 | a sign and more than 4300 digits is refused, so such a slide index is a conversion error |
| FillTemplate.ParseIntRoundTrip | msoffice/pptx/pptx_fill_data_into_template.py:245 | `int(str(i)) == i` for every integer `str` can write, those of at most 4300 digits |
| FillTemplate.SlideIndexValue | msoffice/pptx/pptx_fill_data_into_template.py:244-247 | a missing index is 0; an integer is itself; a boolean is 1 or 0; a float is truncated toward zero; a string gives exactly what `int()` parses, or is refused; null, lists and objects are refused; every refusal is SlideIndexNotInteger |
| FillTemplate.TemplateCheck | msoffice/pptx/pptx_fill_data_into_template.py:242-252 | accepted iff `templatePptx` is a non-empty string naming an existing file; a missing or falsy value, or a string that is no file, is TemplateNotFound; a truthy float, list or object is a TypeError; a truthy integer or boolean is a file descriptor |
| FillTemplate.ValidateFillRequest | msoffice/pptx/pptx_fill_data_into_template.py:242-259 | accepted iff the index converts, the template check passes, and 0 <= index < slide count; a conversion error is reported first, then the template check's own error, then a range error |
| FillTemplate.MissingTemplateIsReportedBeforeRange | msoffice/pptx/pptx_fill_data_into_template.py:251-259 | with a convertible index and no `templatePptx`, the request fails with TemplateNotFound whatever the index |
| FillTemplate.NegativeFractionTruncatesToFirstSlide | msoffice/pptx/pptx_fill_data_into_template.py:245-259 | -0.5 truncates to slide 0 and is accepted, while -1 is out of range |

## Left out

- **Font files, directories and the XML tree.** Reading font files with fontTools, the file-handle closing, `os.listdir`, `os.path.isdir`, `os.path.isfile` and the XML tree are replaced by input data. The parsed name records, a directory listing, a set of existing paths and `Option`-valued element records take their place. The lxml/python-pptx navigation and its `AttributeError` fallbacks are not modelled.
- **Pillow.** `ImageFont.truetype`, `getbbox` and `getmetrics` are not modelled. Measurement is a function of the loaded font and the text. `get_font_line_height` is unused and left out.
- **Joined paths.** `os.path.join(font_dir, filename)` is not modelled. The lookup returns the file name, and `isFile` is keyed by file name.
- **Unicode case mapping.** `lower()` is modelled on ASCII letters only.
- SizeFitting.CalculateFittingFontSize: the glyph cache is not threaded through the scan. The scan measures through the uncached `Measure`. `FontCacheState.MeasureTextWidth` shows a coherent cache returns the same widths, so only the cache contents after the call are not modelled.
- **Floating point.** Python floats become exact reals, so rounding in `pt * 96 / 72`, the line-count division and the height sums is not modelled.
- ShapeFont.GetShapeFont: an `a:latin` element without a `typeface` attribute is treated as absent. python-pptx raises on reading such a run's `font.name`.
- ShapeFont.GetShapeFont: the theme map is the four-slot record `get_theme_fonts` returns, or none. An arbitrary dictionary with other keys is not modelled.
- ParagraphDefaultsResolver.GetPlaceholderParagraphDefaults: a shape that is not a placeholder gets the default result, as the function's own guard intends. Whether python-pptx raises on `placeholder_format` for such a shape is outside this model.
- ParagraphDefaultsResolver.GetPlaceholderParagraphDefaults: `val` attributes are integers. A missing or non-numeric `val` makes the source raise, and that case is not modelled.
- FillTemplate.ParseInt: `int()` also accepts underscores between digits and non-ASCII decimal digits. Neither is modelled.
- FillTemplate.ParseInt: the digit limit is fixed at CPython's default of 4300. A limit changed through `sys.set_int_max_str_digits` or `PYTHONINTMAXSTRDIGITS`, and older interpreters without a limit, are not modelled.
- FillTemplate.TemplateCheck: a truthy integer or boolean is reported as TemplateIsFileDescriptor and not followed further. `os.path.isfile` reads it as an open file descriptor, and what happens next depends on the process's open files.
- FillTemplate.SlideIndexValue: infinite and NaN floats are not modelled. Python's JSON reader accepts them, and `int()` then raises `OverflowError` or `ValueError`.
- **Template plumbing.** Image placement (`_fill_image`'s aspect-ratio geometry, `add_picture`, removing the frame), `tf.fit_text`, clearing the text frame, the placeholder type dispatch, finding a shape by name, and loading and saving the presentation are not modelled.
- **The command line and logging.** The command-line front end (`cli.py`) and all logging are not modelled.
