/** `find_font_file`: from a font name to a font file of the font directory,
    first through the name index, then through a file-name heuristic. */
module FontFileLookup {
  import opened Wrappers
  import opened Text
  import opened FontNameIndex
  import opened FontCacheState

  /** The first listed file that exists at lookup time. */
  function FirstExisting(files: seq<string>, isFile: set<string>): (r: Option<string>)
    ensures r.None? <==> forall i | 0 <= i < |files| :: files[i] !in isFile
    ensures r.Some? ==> exists i | 0 <= i < |files| ::
      files[i] == r.value && r.value in isFile && forall j | 0 <= j < i :: files[j] !in isFile
  {
    if |files| == 0 then None
    else if files[0] in isFile then Some(files[0])
    else FirstExisting(files[1..], isFile)
  }

  /** A name with its spaces and hyphens left out, every other character
      kept in order: the form both sides of the heuristic compare in. */
  function Squeezed(s: string): string {
    Without(Without(s, ' '), '-')
  }

  /** The requested name, lower-cased, without spaces and hyphens. */
  function NormalisedRequest(lowerName: string): (r: string)
    ensures r == Squeezed(lowerName)
    ensures ' ' !in r && '-' !in r
    ensures |r| <= |lowerName| && forall x | x in r :: x in lowerName
  {
    var noSpace := RemoveAll(lowerName, " ");
    RemoveAllCharAbsent(lowerName, ' ');
    RemoveAllCharAbsent(noSpace, '-');
    RemoveAllCharIsWithout(lowerName, ' ');
    RemoveAllCharIsWithout(noSpace, '-');
    RemoveAll(noSpace, "-")
  }

  /** The file name, lower-cased, without spaces and hyphens, and without
      the strings ".ttc", ".ttf" and ".otf", removed in that order. */
  function NormalisedFileName(fileName: string): (r: string)
    ensures ' ' !in r && '-' !in r
    ensures forall x | x in r :: !('A' <= x <= 'Z')
    ensures |r| <= |fileName|
  {
    var lower := Lower(fileName);
    var noSpace := RemoveAll(lower, " ");
    var noHyphen := RemoveAll(noSpace, "-");
    RemoveAllCharAbsent(lower, ' ');
    RemoveAllCharAbsent(noSpace, '-');
    RemoveAll(RemoveAll(RemoveAll(noHyphen, ".ttc"), ".ttf"), ".otf")
  }

  /** A font file name `stem + ext`, with a dot-free stem and a font
      extension in any case, normalises to the squeezed, lower-cased stem:
      the extension goes, and everything else but spaces and hyphens stays. */
  lemma NormalisedFileNameOfFontFile(stem: string, ext: string)
    requires '.' !in stem
    requires Lower(ext) == ".ttf" || Lower(ext) == ".ttc" || Lower(ext) == ".otf"
    ensures IsFontFileName(stem + ext)
    ensures NormalisedFileName(stem + ext) == Squeezed(Lower(stem))
  {
    var e := Lower(ext);
    LowerConcat(stem, ext);
    EndsWithExtension(Lower(stem), e);
    LowerKeepsDotOut(stem);
    var lower := Lower(stem + ext);
    var noSpace := RemoveAll(lower, " ");
    RemoveAllCharIsWithout(lower, ' ');
    RemoveAllCharIsWithout(noSpace, '-');
    SqueezedAppend(Lower(stem), e);
    ExtensionsRemoved(Squeezed(Lower(stem)), e);
  }

  lemma EndsWithExtension(a: string, e: string)
    requires e == ".ttf" || e == ".ttc" || e == ".otf"
    ensures EndsWith(a + e, ".ttf") || EndsWith(a + e, ".ttc") || EndsWith(a + e, ".otf")
  {
    assert (a + e)[|a + e| - |e|..] == e;
  }

  lemma LowerKeepsDotOut(s: string)
    requires '.' !in s
    ensures '.' !in Lower(s) && '.' !in Squeezed(Lower(s))
  {
    forall i | 0 <= i < |s| ensures Lower(s)[i] != '.' {
      assert s[i] in s;
    }
  }

  /** Squeezing passes over an appended text without spaces or hyphens. */
  lemma SqueezedAppend(a: string, e: string)
    requires ' ' !in e && '-' !in e
    ensures Squeezed(a + e) == Squeezed(a) + e
  {
    WithoutConcat(a, e, ' ');
    WithoutAbsent(e, ' ');
    WithoutConcat(Without(a, ' '), e, '-');
    WithoutAbsent(e, '-');
  }

  /** Removing the three extension strings from a dot-free text followed by
      one extension leaves the text. */
  lemma ExtensionsRemoved(f: string, e: string)
    requires '.' !in f
    requires e == ".ttf" || e == ".ttc" || e == ".otf"
    ensures RemoveAll(RemoveAll(RemoveAll(f + e, ".ttc"), ".ttf"), ".otf") == f
  {
    var e1 := RemoveAll(e, ".ttc");
    RemoveAllSameLength(e, ".ttc");
    RemoveAllSkipsPrefix(f, e, ".ttc");
    var e2 := RemoveAll(e1, ".ttf");
    RemoveAllSameLength(e1, ".ttf");
    RemoveAllSkipsPrefix(f, e1, ".ttf");
    RemoveAllSameLength(e2, ".otf");
    RemoveAllSkipsPrefix(f, e2, ".otf");
    assert f + [] == f;
  }

  /** A text as long as the pattern is removed whole or kept whole. */
  lemma RemoveAllSameLength(s: string, pat: string)
    requires |pat| > 0
    ensures |s| == |pat| ==> RemoveAll(s, pat) == if s == pat then [] else s
    ensures s == [] ==> RemoveAll(s, pat) == []
  {
    if |s| == |pat| && s != pat {
      assert s[..|pat|] == s;
      assert RemoveAll(s[1..], pat) == s[1..];
      assert s == [s[0]] + s[1..];
    }
  }

  /** The heuristic accepts a font file whose normalised name contains, or
      is contained in, the normalised request. */
  predicate Accepts(request: string, e: DirEntry) {
    var file := NormalisedFileName(e.fileName);
    IsFontFileName(e.fileName) && (IsSubstring(request, file) || IsSubstring(file, request))
  }

  /** The heuristic for a lower-cased requested name. */
  predicate HeuristicMatch(lowerName: string, e: DirEntry) {
    Accepts(NormalisedRequest(lowerName), e)
  }

  /** The first entry of the listing the heuristic accepts for a normalised request. */
  function FirstAccepted(entries: seq<DirEntry>, request: string): (r: Option<string>)
    ensures r.None? <==> forall i | 0 <= i < |entries| :: !Accepts(request, entries[i])
    ensures r.Some? ==> exists i | 0 <= i < |entries| ::
      entries[i].fileName == r.value && Accepts(request, entries[i])
      && forall j | 0 <= j < i :: !Accepts(request, entries[j])
  {
    if |entries| == 0 then None
    else if Accepts(request, entries[0]) then Some(entries[0].fileName)
    else
      assert forall i | 1 <= i < |entries| :: entries[i] == entries[1..][i - 1];
      FirstAccepted(entries[1..], request)
  }

  /** The first entry of the listing the heuristic accepts. */
  function FirstHeuristicMatch(entries: seq<DirEntry>, lowerName: string): (r: Option<string>)
    ensures r.None? <==> forall i | 0 <= i < |entries| :: !HeuristicMatch(lowerName, entries[i])
    ensures r.Some? ==> exists i | 0 <= i < |entries| ::
      entries[i].fileName == r.value && HeuristicMatch(lowerName, entries[i])
      && forall j | 0 <= j < i :: !HeuristicMatch(lowerName, entries[j])
  {
    FirstAccepted(entries, NormalisedRequest(lowerName))
  }

  /** The file the exact-name step finds: the first file listed under the
      lower-cased name that exists at lookup time. */
  function ExactMatch(index: NameIndex, lowerName: string, isFile: set<string>): Option<string> {
    if lowerName in index then FirstExisting(index[lowerName], isFile) else None
  }

  /** The file the fallback finds; a listing that fails now finds nothing. */
  function FallbackMatch(dir: FontDirectory, lowerName: string): Option<string> {
    match dir
    case Listing(entries) => FirstHeuristicMatch(entries, lowerName)
    case _ => None
  }

  /** `find_font_file`. `isFile` is the set of file names that exist in the
      directory at lookup time; the result is a file name of the directory
      (the source joins it to the directory path). */
  function FindFontFile(c: FontCaches, fontName: string, dir: FontDirectory, isFile: set<string>): (r: (Option<string>, FontCaches))
    ensures fontName == "" || dir.NotADirectory? ==> r == (None, c)
    ensures fontName != "" && !dir.NotADirectory? ==> r.1 == InitializeFontSystem(c, dir)
    ensures fontName != "" && !dir.NotADirectory? ==>
      var lowerName := Lower(fontName);
      && (ExactMatch(r.1.nameIndex, lowerName, isFile).Some? ==>
            r.0 == ExactMatch(r.1.nameIndex, lowerName, isFile))
      && (ExactMatch(r.1.nameIndex, lowerName, isFile).None? ==>
            r.0 == FallbackMatch(dir, lowerName))
    ensures r.0.Some? ==>
      var lowerName := Lower(fontName);
      || (lowerName in r.1.nameIndex && r.0.value in r.1.nameIndex[lowerName] && r.0.value in isFile)
      || (dir.Listing? && exists i | 0 <= i < |dir.entries| ::
            dir.entries[i].fileName == r.0.value && HeuristicMatch(lowerName, dir.entries[i]))
  {
    if fontName == "" || dir.NotADirectory? then (None, c)
    else
      var (index, c') := GetFontNameMapping(c, dir);
      var lowerName := Lower(fontName);
      var exact := ExactMatch(index, lowerName, isFile);
      if exact.Some? then (exact, c')
      else (FallbackMatch(dir, lowerName), c')
  }

  /** A font known to the index by name is found through the index: the
      first file listed under its name that exists is returned, even when
      the heuristic would accept an earlier file of the listing. */
  lemma IndexedNameWins(c: FontCaches, fontName: string, dir: FontDirectory, isFile: set<string>, i: nat)
    requires fontName != "" && dir.Listing?
    requires var index := InitializeFontSystem(c, dir).nameIndex;
      Lower(fontName) in index && i < |index[Lower(fontName)]| && index[Lower(fontName)][i] in isFile
    ensures var index := InitializeFontSystem(c, dir).nameIndex;
      exists k | 0 <= k <= i :: FindFontFile(c, fontName, dir, isFile).0 == Some(index[Lower(fontName)][k])
  {
  }

  /** The fuzzy fallback: when the index has no existing file for the
      name, a font file `stem + ext` whose squeezed, lower-cased stem
      contains the squeezed, lower-cased request is found, provided no
      earlier entry of the listing is accepted first. The request
      "Noto Sans JP" and the stem "NotoSansJP-Regular" are such a pair:
      they squeeze to "notosansjp" and "notosansjpregular". */
  lemma FuzzyFallbackFindsFontFile(c: FontCaches, fontName: string, entries: seq<DirEntry>, isFile: set<string>,
                                   i: nat, stem: string, ext: string)
    requires fontName != ""
    requires ExactMatch(InitializeFontSystem(c, Listing(entries)).nameIndex, Lower(fontName), isFile).None?
    requires i < |entries| && entries[i].fileName == stem + ext
    requires '.' !in stem && (Lower(ext) == ".ttf" || Lower(ext) == ".ttc" || Lower(ext) == ".otf")
    requires IsSubstring(Squeezed(Lower(fontName)), Squeezed(Lower(stem)))
    requires forall k | 0 <= k < i :: !HeuristicMatch(Lower(fontName), entries[k])
    ensures FindFontFile(c, fontName, Listing(entries), isFile).0 == Some(stem + ext)
  {
    var lowerName := Lower(fontName);
    NormalisedFileNameOfFontFile(stem, ext);
    assert HeuristicMatch(lowerName, entries[i]);
    var r := FirstHeuristicMatch(entries, lowerName);
    var k :| 0 <= k < |entries| && entries[k].fileName == r.value && HeuristicMatch(lowerName, entries[k])
      && forall j | 0 <= j < k :: !HeuristicMatch(lowerName, entries[j]);
    assert k == i;
  }

  /** A non-empty request made only of spaces and hyphens that the index
      does not know normalises to the empty string, which every file name
      contains, so the heuristic returns the first font file of the listing. */
  lemma {:induction false} BlankRequestMatchesFirstFontFile(c: FontCaches, fontName: string, entries: seq<DirEntry>, isFile: set<string>, i: nat)
    requires fontName != "" && forall k | 0 <= k < |fontName| :: fontName[k] == ' ' || fontName[k] == '-'
    requires ExactMatch(InitializeFontSystem(c, Listing(entries)).nameIndex, Lower(fontName), isFile).None?
    requires i < |entries| && IsFontFileName(entries[i].fileName)
    requires forall k | 0 <= k < i :: !IsFontFileName(entries[k].fileName)
    ensures FindFontFile(c, fontName, Listing(entries), isFile).0 == Some(entries[i].fileName)
  {
    var lowerName := Lower(fontName);
    BlankNormalisesToEmpty(lowerName);
    EmptyIsSubstring(NormalisedFileName(entries[i].fileName));
    assert HeuristicMatch(lowerName, entries[i]);
    var r := FirstHeuristicMatch(entries, lowerName);
    assert r.Some?;
    var k :| 0 <= k < |entries| && entries[k].fileName == r.value && HeuristicMatch(lowerName, entries[k])
      && forall j | 0 <= j < k :: !HeuristicMatch(lowerName, entries[j]);
    assert k == i;
  }

  lemma BlankNormalisesToEmpty(lowerName: string)
    requires forall k | 0 <= k < |lowerName| :: lowerName[k] == ' ' || lowerName[k] == '-'
    ensures NormalisedRequest(lowerName) == ""
  {
    var noSpace := RemoveAll(lowerName, " ");
    RemoveAllCharAbsent(lowerName, ' ');
    assert forall k | 0 <= k < |noSpace| :: noSpace[k] == '-' by {
      forall k | 0 <= k < |noSpace| ensures noSpace[k] == '-' {
        assert noSpace[k] in noSpace;
      }
    }
    RemoveAllOfOnlyHyphens(noSpace);
  }

  lemma {:induction false} RemoveAllOfOnlyHyphens(s: string)
    requires forall k | 0 <= k < |s| :: s[k] == '-'
    ensures RemoveAll(s, "-") == ""
    decreases |s|
  {
    if |s| >= 1 {
      assert s[..1] == "-";
      RemoveAllOfOnlyHyphens(s[1..]);
    }
  }
}
