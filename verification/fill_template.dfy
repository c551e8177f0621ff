/** The pure decisions of pptx_fill_data_into_template.py: splitting a list
    item into a label and a body, the runs a list item becomes, the font size
    ceiling handed to text fitting, and the validation of the request's
    `maxFontSize` and `slideIndex` values. */
module FillTemplate {
  import opened Wrappers
  import opened Text

  /** Size ceiling for a title placeholder without an explicit maximum. */
  const MaxTitleSize: int := 36
  /** Size ceiling for any other text or list placeholder without one. */
  const MaxFontSize: int := 24

  /** The label separators, in the order they are searched. */
  const FullWidthColon: char := '\U{FF1A}'
  const AsciiColon: char := ':'

  // ---------------------------------------------------------------------
  // Label and body
  // ---------------------------------------------------------------------

  /** The position of the separator a text is split at: the first full-width
      colon, or, when there is none anywhere, the first ASCII colon. */
  function SeparatorIndex(text: string): (r: Option<nat>)
    ensures r.None? <==> FullWidthColon !in text && AsciiColon !in text
    ensures r.Some? ==> r.value < |text|
    ensures FullWidthColon in text ==> r.Some? && text[r.value] == FullWidthColon && FullWidthColon !in text[..r.value]
    ensures FullWidthColon !in text && AsciiColon in text ==>
      r.Some? && text[r.value] == AsciiColon && AsciiColon !in text[..r.value]
  {
    var wide := Find(text, FullWidthColon);
    if wide.Some? then wide else Find(text, AsciiColon)
  }

  /** `label` and `body` are what is left around the separator at `i`: the
      text before it, and the rest after it less its leading whitespace. */
  ghost predicate SplitsAt(text: string, i: nat, head: string, body: string) {
    && i < |text|
    && head == text[..i]
    && var rest := text[i + 1..];
    && |body| <= |rest|
    && body == rest[|rest| - |body|..]
    && (forall k | 0 <= k < |rest| - |body| :: IsSpace(rest[k]))
    && (body == [] || !IsSpace(body[0]))
  }

  /** `_split_label_body`. */
  function SplitLabelBody(text: string): (r: (string, string))
    ensures SeparatorIndex(text).None? ==> r == (text, "")
    ensures SeparatorIndex(text).Some? ==> SplitsAt(text, SeparatorIndex(text).value, r.0, r.1)
  {
    match SeparatorIndex(text)
    case None => (text, "")
    case Some(i) =>
      SplitAtSeparator(text, i);
      (text[..i], LStrip(text[i + 1..]))
  }

  lemma SplitAtSeparator(text: string, i: nat)
    requires i < |text|
    ensures SplitsAt(text, i, text[..i], LStrip(text[i + 1..]))
  {
  }

  /** The split is lossless up to whitespace after the separator: the label,
      the separator, the dropped whitespace and the body make up the text. */
  lemma SplitReassembles(text: string)
    requires SeparatorIndex(text).Some?
    ensures var i, r := SeparatorIndex(text).value, SplitLabelBody(text);
      r.0 + [text[i]] + text[i + 1..|text| - |r.1|] + r.1 == text
  {
    var i, r := SeparatorIndex(text).value, SplitLabelBody(text);
    assert SplitsAt(text, i, r.0, r.1);
    var j := |text| - |r.1|;
    assert r.1 == text[j..] by {
      assert text[i + 1..][j - (i + 1)..] == text[j..];
    }
    CutAround(text, i, j);
  }

  /** Cutting a text around one position and gluing the pieces back. */
  lemma CutAround(s: string, i: nat, j: nat)
    requires i < j <= |s|
    ensures s[..i] + [s[i]] + s[i + 1..j] + s[j..] == s
  {
    assert s[..i] + [s[i]] == s[..i + 1];
    assert s[..i + 1] + s[i + 1..j] == s[..j];
  }

  /** The reverse direction: joining a label and a body with a separator and
      any whitespace splits back into that label and body, provided the label
      holds no separator that would be found first. */
  lemma {:induction false} JoinThenSplit(head: string, sep: char, ws: string, body: string)
    requires sep == FullWidthColon || sep == AsciiColon
    requires FullWidthColon !in head
    requires sep == AsciiColon ==> AsciiColon !in head && FullWidthColon !in ws + body
    requires forall k | 0 <= k < |ws| :: IsSpace(ws[k])
    requires body == [] || !IsSpace(body[0])
    ensures SplitLabelBody(head + [sep] + ws + body) == (head, body)
  {
    var text := head + [sep] + ws + body;
    assert text == head + [sep] + (ws + body);
    if sep == FullWidthColon {
      FindAfterPrefix(head, FullWidthColon, ws + body);
    } else {
      assert FullWidthColon !in text by {
        assert text == head + ([sep] + (ws + body));
      }
      FindAfterPrefix(head, AsciiColon, ws + body);
    }
    assert SeparatorIndex(text) == Some(|head|);
    assert text[..|head|] == head;
    assert text[|head| + 1..] == ws + body;
    LStripSkipsLeadingSpace(ws, body);
  }

  /** Both separators present: the full-width one decides, even after an
      earlier ASCII colon, and the ASCII colon stays in the label. */
  lemma FullWidthColonIsPreferred()
    ensures SplitLabelBody("A:B\U{FF1A}  C") == ("A:B", "C")
  {
    JoinThenSplit("A:B", FullWidthColon, "  ", "C");
    assert "A:B" + [FullWidthColon] + "  " + "C" == "A:B\U{FF1A}  C";
  }

  /** Only the first ASCII colon splits; later ones stay in the body. */
  lemma FirstAsciiColonSplits()
    ensures SplitLabelBody("Time: 10:30") == ("Time", "10:30")
  {
    var body := "10:30";
    assert "Time" + [AsciiColon] + " " + body == "Time: 10:30";
    assert SplitLabelBody("Time" + [AsciiColon] + " " + body) == ("Time", body) by {
      assert FullWidthColon !in " " + body by {
        assert " " + body == [' ', '1', '0', ':', '3', '0'];
      }
      JoinThenSplit("Time", AsciiColon, " ", body);
    }
  }

  // ---------------------------------------------------------------------
  // List runs
  // ---------------------------------------------------------------------

  /** A run of a list paragraph: its text and whether it is bold. */
  datatype TextRun = TextRun(text: string, bold: bool)

  /** The runs `_fill_list` writes for one item: a bold run with the
      stripped label (the stripped whole item when the label is empty), then,
      only when the body is non-empty, a plain run with a full-width colon
      and the body. */
  function ListItemRuns(line: string): (r: seq<TextRun>)
    ensures 1 <= |r| <= 2
    ensures r[0].bold && (|r| == 2 ==> !r[1].bold)
    ensures |r| == 2 <==> SplitLabelBody(line).1 != ""
    ensures |r| == 2 ==> r[1].text == [FullWidthColon] + SplitLabelBody(line).1
    ensures r[0].text == Strip(if SplitLabelBody(line).0 != "" then SplitLabelBody(line).0 else line)
  {
    var (head, body) := SplitLabelBody(line);
    var first := TextRun(Strip(if head != "" then head else line), true);
    if body != "" then [first, TextRun([FullWidthColon] + body, false)] else [first]
  }

  /** An item `label: body` becomes a bold label and a plain body behind a
      full-width colon, whichever colon the item used. */
  lemma ListItemOfLabelAndBody(head: string, sep: char, ws: string, body: string)
    requires sep == FullWidthColon || sep == AsciiColon
    requires FullWidthColon !in head
    requires sep == AsciiColon ==> AsciiColon !in head && FullWidthColon !in ws + body
    requires forall k | 0 <= k < |ws| :: IsSpace(ws[k])
    requires head != [] && !IsSpace(head[0]) && !IsSpace(head[|head| - 1])
    requires body != [] && !IsSpace(body[0])
    ensures ListItemRuns(head + [sep] + ws + body) == [TextRun(head, true), TextRun([FullWidthColon] + body, false)]
  {
    JoinThenSplit(head, sep, ws, body);
    StripUnchanged(head);
  }

  /** An item without a separator is one bold run of the stripped item. */
  lemma ListItemWithoutSeparator(line: string)
    requires FullWidthColon !in line && AsciiColon !in line
    ensures ListItemRuns(line) == [TextRun(Strip(line), true)]
  {
  }

  /** An item that starts with its separator has an empty label, so the
      bold run carries the whole item, separator and body included, and the
      body is repeated in the plain run. */
  lemma LeadingSeparatorRepeatsBody(body: string)
    requires body != [] && !IsSpace(body[0]) && !IsSpace(body[|body| - 1])
    requires FullWidthColon !in body
    ensures ListItemRuns([AsciiColon] + body) ==
      [TextRun([AsciiColon] + body, true), TextRun([FullWidthColon] + body, false)]
  {
    LeadingSeparatorEmptiesLabel(body);
    StripUnchanged([AsciiColon] + body);
  }

  /** An item that starts with an ASCII colon splits into an empty label
      and the rest. */
  lemma LeadingSeparatorEmptiesLabel(body: string)
    requires body == [] || !IsSpace(body[0])
    requires FullWidthColon !in body
    ensures SplitLabelBody([AsciiColon] + body) == ([], body)
  {
    var empty: string := [];
    assert empty + [AsciiColon] + empty + body == [AsciiColon] + body;
    assert FullWidthColon !in empty + body;
    JoinThenSplit(empty, AsciiColon, empty, body);
  }

  // ---------------------------------------------------------------------
  // Size ceiling
  // ---------------------------------------------------------------------

  /** The ceiling `_fill_text` hands to text fitting: an explicit maximum
      when it is truthy (non-zero), else 36 for a title and 24 otherwise. */
  function MaxSizeForText(maxFontSize: Option<int>, isTitle: bool): (r: int)
    ensures r != 0
    ensures maxFontSize.Some? && maxFontSize.value != 0 ==> r == maxFontSize.value
    ensures (maxFontSize.None? || maxFontSize.value == 0) ==> r == (if isTitle then MaxTitleSize else MaxFontSize)
  {
    if maxFontSize.Some? && maxFontSize.value != 0 then maxFontSize.value
    else if isTitle then MaxTitleSize else MaxFontSize
  }

  /** The ceiling `_fill_list` hands to text fitting. */
  function MaxSizeForList(maxFontSize: Option<int>): (r: int)
    ensures r != 0
    ensures maxFontSize.Some? && maxFontSize.value != 0 ==> r == maxFontSize.value
    ensures (maxFontSize.None? || maxFontSize.value == 0) ==> r == MaxFontSize
  {
    if maxFontSize.Some? && maxFontSize.value != 0 then maxFontSize.value else MaxFontSize
  }

  /** A list is sized like body text: its ceiling is the one a non-title
      text placeholder gets, and a title only ever raises the default. */
  lemma ListSizedLikeBodyText(maxFontSize: Option<int>)
    ensures MaxSizeForList(maxFontSize) == MaxSizeForText(maxFontSize, false)
    ensures MaxSizeForText(maxFontSize, false) <= MaxSizeForText(maxFontSize, true)
  {
  }

  // ---------------------------------------------------------------------
  // Request validation
  // ---------------------------------------------------------------------

  /** A parsed JSON value. */
  datatype Json =
    | JNull
    | JBool(b: bool)
    | JInt(i: int)
    | JFloat(f: real)
    | JString(s: string)
    | JArray(items: seq<Json>)
    | JObject(fields: map<string, Json>)

  /** Python truthiness of a JSON value. */
  predicate Truthy(v: Json) {
    match v
    case JNull => false
    case JBool(b) => b
    case JInt(i) => i != 0
    case JFloat(f) => f != 0.0
    case JString(s) => s != ""
    case JArray(items) => items != []
    case JObject(fields) => fields != map[]
  }

  /** A placeholder's `maxFontSize`: kept when it is an integer (a boolean
      is one, as 0 or 1), discarded otherwise. */
  function MaxFontSizeSetting(placeholder: map<string, Json>): (r: Option<int>)
    ensures r.Some? <==> "maxFontSize" in placeholder && (placeholder["maxFontSize"].JInt? || placeholder["maxFontSize"].JBool?)
    ensures r.Some? && placeholder["maxFontSize"].JInt? ==> r.value == placeholder["maxFontSize"].i
    ensures r.Some? && placeholder["maxFontSize"].JBool? ==> (r.value == 1 <==> placeholder["maxFontSize"].b) && 0 <= r.value <= 1
  {
    if "maxFontSize" !in placeholder then None
    else match placeholder["maxFontSize"]
      case JInt(i) => Some(i)
      case JBool(b) => Some(if b then 1 else 0)
      case _ => None
  }

  /** Whether a placeholder is a title: its `isTitle` value is truthy. */
  predicate IsTitleSetting(placeholder: map<string, Json>) {
    "isTitle" in placeholder && Truthy(placeholder["isTitle"])
  }

  /** The ceiling a text placeholder of the request gets. */
  lemma TextCeilingOfPlaceholder(placeholder: map<string, Json>)
    ensures var r := MaxSizeForText(MaxFontSizeSetting(placeholder), IsTitleSetting(placeholder));
      && ("maxFontSize" in placeholder && placeholder["maxFontSize"].JInt? && placeholder["maxFontSize"].i != 0 ==>
            r == placeholder["maxFontSize"].i)
      && (("maxFontSize" !in placeholder || !Truthy(placeholder["maxFontSize"])) ==>
            r == if IsTitleSetting(placeholder) then 36 else 24)
      && ("maxFontSize" in placeholder && !placeholder["maxFontSize"].JInt? && !placeholder["maxFontSize"].JBool? ==>
            r == if IsTitleSetting(placeholder) then 36 else 24)
  {
  }

  function DigitValue(c: char): nat
    requires IsDigit(c)
  {
    c as int - '0' as int
  }

  predicate IsDigit(c: char) {
    '0' <= c <= '9'
  }

  /** The value of a string of decimal digits, most significant first. */
  function DigitsValue(ds: string): (r: nat)
    requires forall k | 0 <= k < |ds| :: IsDigit(ds[k])
    decreases |ds|
  {
    if |ds| == 0 then 0 else DigitsValue(ds[..|ds| - 1]) * 10 + DigitValue(ds[|ds| - 1])
  }

  /** A non-empty run of ASCII digits. */
  predicate IsDigits(ds: string) {
    ds != [] && forall k | 0 <= k < |ds| :: IsDigit(ds[k])
  }

  /** A literal less its leading sign, if it has one. */
  function Unsigned(t: string): (r: string)
    ensures |r| <= |t| && r == t[|t| - |r|..]
  {
    if t != [] && (t[0] == '+' || t[0] == '-') then t[1..] else t
  }

  /** The most decimal digits `int()` reads and `str()` writes: CPython's
      default integer string conversion length limit
      (`sys.get_int_max_str_digits()`); more raises `ValueError`. */
  const MaxStrDigits: nat := 4300

  /** What `int()` accepts once whitespace is stripped: an optional sign,
      then at least one and at most `MaxStrDigits` ASCII digits. */
  predicate IsIntLiteral(t: string) {
    t != [] && IsDigits(Unsigned(t)) && |Unsigned(t)| <= MaxStrDigits
  }

  /** `int(s)` on a string: surrounding whitespace, an optional sign, then at
      least one ASCII digit, and no more digits than the conversion limit.
      Any other string is refused. */
  function ParseInt(s: string): (r: Option<int>)
    ensures r.Some? <==> IsIntLiteral(Strip(s))
    ensures IsDigits(Unsigned(Strip(s))) && |Unsigned(Strip(s))| > MaxStrDigits ==> r.None?
    ensures r.Some? ==> var t := Strip(s);
      r.value == (if t[0] == '-' then -(DigitsValue(Unsigned(t)) as int) else DigitsValue(Unsigned(t)))
    ensures r.Some? && r.value < 0 ==> Strip(s)[0] == '-'
  {
    var t := Strip(s);
    if !IsIntLiteral(t) then None
    else
      var magnitude: int := DigitsValue(Unsigned(t));
      Some(if t[0] == '-' then -magnitude else magnitude)
  }

  /** Every string of the accepted shape parses, to its signed digit value:
      whatever `strip` leaves, when it is an optional sign and at most
      `MaxStrDigits` digits (see `Text.StripSurroundingSpace` for what
      `strip` leaves). */
  lemma ParseIntOfSignedDigits(s: string, sign: string, digits: string)
    requires |sign| <= 1 && (sign != [] ==> sign[0] == '+' || sign[0] == '-')
    requires IsDigits(digits) && |digits| <= MaxStrDigits
    requires Strip(s) == sign + digits
    ensures ParseInt(s) == Some(if sign != [] && sign[0] == '-' then -(DigitsValue(digits) as int) else DigitsValue(digits))
  {
    var t := Strip(s);
    var negative := sign != [] && sign[0] == '-';
    assert IsIntLiteral(t) && Unsigned(t) == digits && (t[0] == '-' <==> negative) by {
      SignedLiteral(sign, digits);
    }
    var r := ParseInt(s);
    assert r.Some?;
    assert r.value == if negative then -(DigitsValue(digits) as int) else DigitsValue(digits);
  }

  /** The same shape with more digits than the limit is refused. */
  lemma TooManyDigitsRefused(s: string, sign: string, digits: string)
    requires |sign| <= 1 && (sign != [] ==> sign[0] == '+' || sign[0] == '-')
    requires IsDigits(digits) && |digits| > MaxStrDigits
    requires Strip(s) == sign + digits
    ensures ParseInt(s) == None
  {
    SignedLiteral(sign, digits);
  }

  lemma SignedLiteral(sign: string, digits: string)
    requires |sign| <= 1 && (sign != [] ==> sign[0] == '+' || sign[0] == '-')
    requires IsDigits(digits)
    ensures IsIntLiteral(sign + digits) <==> |digits| <= MaxStrDigits
    ensures Unsigned(sign + digits) == digits
    ensures (sign + digits)[0] == '-' <==> sign != [] && sign[0] == '-'
  {
    var t := sign + digits;
    if sign == [] {
      assert t == digits;
    } else {
      assert t[0] == sign[0];
      assert t[1..] == digits;
    }
  }

  function DigitChar(d: int): (c: char)
    requires 0 <= d < 10
    ensures IsDigit(c) && DigitValue(c) == d
  {
    ('0' as int + d) as char
  }

  /** The decimal digits of `n`, without leading zeros. */
  function NatToDigits(n: nat): (r: string)
    ensures r != [] && forall k | 0 <= k < |r| :: IsDigit(r[k])
  {
    if n < 10 then [DigitChar(n)] else NatToDigits(n / 10) + [DigitChar(n % 10)]
  }

  /** `str(i)` for an integer; CPython refuses to write more than
      `MaxStrDigits` digits (see `StrConvertible`). */
  function IntToString(i: int): string {
    if i < 0 then "-" + NatToDigits(-i) else NatToDigits(i)
  }

  lemma {:induction false} DigitsRoundTrip(n: nat)
    ensures DigitsValue(NatToDigits(n)) == n
  {
    if n >= 10 {
      var ds := NatToDigits(n);
      assert ds[..|ds| - 1] == NatToDigits(n / 10);
      DigitsRoundTrip(n / 10);
    }
  }

  /** `str(i)` succeeds: the magnitude has at most `MaxStrDigits` digits. */
  predicate StrConvertible(i: int) {
    |NatToDigits(if i < 0 then -i else i)| <= MaxStrDigits
  }

  /** `int(str(i)) == i` for every integer `str` can write. */
  lemma ParseIntRoundTrip(i: int)
    requires StrConvertible(i)
    ensures ParseInt(IntToString(i)) == Some(i)
  {
    var n: nat := if i < 0 then -i else i;
    var sign, ds, s := if i < 0 then "-" else "", NatToDigits(n), IntToString(i);
    assert s == sign + ds;
    assert Strip(s) == s by {
      assert s[|s| - 1] == ds[|ds| - 1];
      StripUnchanged(s);
    }
    DigitsRoundTrip(n);
    ParseIntOfSignedDigits(s, sign, ds);
  }

  /** Why a fill request is refused before any placeholder is filled. */
  datatype FillError =
    | SlideIndexNotInteger   // ValueError
    | TemplateNotFound       // FileNotFoundError
    | TemplatePathNotAString // TypeError from os.stat
    | TemplateIsFileDescriptor // an integer path: os.path.isfile reads it as a descriptor
    | SlideIndexOutOfRange   // IndexError

  /** `int(json_data.get("slideIndex", 0))`: a missing index is 0; a float
      is truncated toward zero; a string is parsed; anything else is refused. */
  function SlideIndexValue(request: map<string, Json>): (r: Result<int, FillError>)
    ensures "slideIndex" !in request ==> r == Success(0)
    ensures "slideIndex" in request && request["slideIndex"].JInt? ==> r == Success(request["slideIndex"].i)
    ensures "slideIndex" in request && request["slideIndex"].JFloat? ==>
      var f := request["slideIndex"].f;
      && r.Success?
      && (if f >= 0.0 then r.value as real <= f < r.value as real + 1.0 else r.value as real - 1.0 < f <= r.value as real)
    ensures "slideIndex" in request && (request["slideIndex"].JNull? || request["slideIndex"].JArray? || request["slideIndex"].JObject?)
      ==> r == Failure(SlideIndexNotInteger)
    ensures "slideIndex" in request && request["slideIndex"].JString? ==>
      r == match ParseInt(request["slideIndex"].s)
           case Some(i) => Success(i)
           case None => Failure(SlideIndexNotInteger)
    ensures "slideIndex" in request && request["slideIndex"].JBool? ==>
      r == Success(if request["slideIndex"].b then 1 else 0)
    ensures r.Failure? ==> r.error == SlideIndexNotInteger
  {
    if "slideIndex" !in request then Success(0)
    else match request["slideIndex"]
      case JInt(i) => Success(i)
      case JBool(b) => Success(if b then 1 else 0)
      case JFloat(f) => Success(if f >= 0.0 then f.Floor else -((-f).Floor))
      case JString(s) =>
        (match ParseInt(s)
         case Some(i) => Success(i)
         case None => Failure(SlideIndexNotInteger))
      case _ => Failure(SlideIndexNotInteger)
  }

  /** The template check, `if not template_pptx or not
      os.path.isfile(template_pptx)`, on `templatePptx` (absent is ""):
      a falsy value, or a string that is not an existing file, is
      `TemplateNotFound`; a truthy float, list or object makes `os.stat`
      raise `TypeError`; a truthy integer or boolean is taken by
      `os.path.isfile` as an open file descriptor. `existing` is the set of
      paths that are files. */
  function TemplateCheck(request: map<string, Json>, existing: set<string>): (r: Result<string, FillError>)
    ensures r.Success? <==>
      "templatePptx" in request && request["templatePptx"].JString?
      && request["templatePptx"].s != "" && request["templatePptx"].s in existing
    ensures r.Success? ==> r.value == request["templatePptx"].s && r.value in existing
    ensures r == Failure(TemplateNotFound) <==>
      "templatePptx" !in request || !Truthy(request["templatePptx"])
      || (request["templatePptx"].JString? && request["templatePptx"].s !in existing)
    ensures r == Failure(TemplatePathNotAString) <==>
      "templatePptx" in request && Truthy(request["templatePptx"])
      && (request["templatePptx"].JFloat? || request["templatePptx"].JArray? || request["templatePptx"].JObject?)
    ensures r == Failure(TemplateIsFileDescriptor) <==>
      "templatePptx" in request && Truthy(request["templatePptx"])
      && (request["templatePptx"].JInt? || request["templatePptx"].JBool?)
  {
    var template := if "templatePptx" in request then request["templatePptx"] else JString("");
    if !Truthy(template) then Failure(TemplateNotFound)
    else match template
      case JString(path) => if path in existing then Success(path) else Failure(TemplateNotFound)
      case JInt(_) => Failure(TemplateIsFileDescriptor)
      case JBool(_) => Failure(TemplateIsFileDescriptor)
      case _ => Failure(TemplatePathNotAString)
  }

  /** The checks `pptx_fill_data_from_json` makes before it fills anything,
      in its order: the slide index must convert to an integer, then the
      template must be an existing file, then the index must address one of
      the template's `slideCount` slides. */
  function ValidateFillRequest(request: map<string, Json>, existing: set<string>, slideCount: nat): (r: Result<nat, FillError>)
    ensures r.Success? <==>
      && SlideIndexValue(request).Success?
      && TemplateCheck(request, existing).Success?
      && 0 <= SlideIndexValue(request).value < slideCount
    ensures r.Success? ==> r.value == SlideIndexValue(request).value && r.value < slideCount
    ensures SlideIndexValue(request).Failure? ==> r == Failure(SlideIndexNotInteger)
    ensures SlideIndexValue(request).Success? && TemplateCheck(request, existing).Failure? ==>
      r == Failure(TemplateCheck(request, existing).error)
    ensures (SlideIndexValue(request).Success? && TemplateCheck(request, existing).Success?
             && (SlideIndexValue(request).value < 0 || SlideIndexValue(request).value >= slideCount))
      ==> r == Failure(SlideIndexOutOfRange)
  {
    var index :- SlideIndexValue(request);
    var _ :- TemplateCheck(request, existing);
    if index < 0 || index >= slideCount then Failure(SlideIndexOutOfRange)
    else Success(index)
  }

  /** A missing template is reported as such whenever the index converts,
      whatever the index is. */
  lemma MissingTemplateIsReportedBeforeRange(request: map<string, Json>, existing: set<string>, slideCount: nat)
    requires SlideIndexValue(request).Success?
    requires "templatePptx" !in request
    ensures ValidateFillRequest(request, existing, slideCount) == Failure(TemplateNotFound)
  {
  }

  /** Truncation toward zero lets a small negative fraction through as
      slide 0, while -1 is refused. */
  lemma NegativeFractionTruncatesToFirstSlide(existing: set<string>)
    requires "deck.pptx" in existing
    ensures ValidateFillRequest(map["templatePptx" := JString("deck.pptx"), "slideIndex" := JFloat(-0.5)], existing, 3) == Success(0)
    ensures ValidateFillRequest(map["templatePptx" := JString("deck.pptx"), "slideIndex" := JInt(-1)], existing, 3) == Failure(SlideIndexOutOfRange)
  {
  }
}
