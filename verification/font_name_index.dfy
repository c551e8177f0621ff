/** The font-name index: a map from lower-cased font names (family names and
    full names read from the fonts' name tables) to the font files of one
    directory that carry that name, in first-insertion order and without
    repeats (font_size_calculator.py, `_build_font_name_mapping`). */
module FontNameIndex {
  import opened Wrappers
  import opened Text

  /** The name-table strings of one font resource: full name (name ID 4),
      family name (ID 1) and subfamily name (ID 2); an absent entry is "". */
  datatype NameRecord = NameRecord(fullName: string, familyName: string, subfamilyName: string)

  /** What reading one font file gives `_get_font_names_from_file`.
      `Read` holds the name records of the resources read before the reader
      stopped: one per resource of a `.ttc` collection, one for a single
      font. A missing or unreadable file, a corrupt font and a missing table
      end the reading quietly: nothing for a single font, the resources
      already read for a collection. `Aborted` is any other error (a
      directory that carries a font extension, a truncated table the
      parser trips over): it leaves the file reader and the directory scan
      both. */
  datatype FontFileRead = Read(records: seq<NameRecord>) | Aborted

  /** One entry of a directory listing: its file name and what reading it
      gives. Files without a font extension are never opened, so their
      `read` is never looked at. */
  datatype DirEntry = DirEntry(fileName: string, read: FontFileRead)

  /** What the file system shows at a font-directory path. */
  datatype FontDirectory =
    | NotADirectory                    // empty path, missing path or not a directory
    | Unlistable                       // a directory whose listing fails
    | Listing(entries: seq<DirEntry>)  // the listing, in listing order

  /** Lower-cased font name to the font files that carry it. */
  type NameIndex = map<string, seq<string>>

  /** The file name ends, ignoring case, in `.ttf`, `.ttc` or `.otf`. */
  predicate IsFontFileName(fileName: string) {
    var lower := Lower(fileName);
    EndsWith(lower, ".ttf") || EndsWith(lower, ".ttc") || EndsWith(lower, ".otf")
  }

  /** A resource is kept only when its full name or its family name is non-empty. */
  predicate HasName(r: NameRecord) {
    r.fullName != "" || r.familyName != ""
  }

  /** The records `_get_font_names_from_file` returns for one file: the
      parsed records that have a name, in order. */
  function FontNamesFromFile(parsed: seq<NameRecord>): (r: seq<NameRecord>)
    ensures forall x :: x in r <==> x in parsed && HasName(x)
    ensures |r| <= |parsed|
  {
    if |parsed| == 0 then []
    else (if HasName(parsed[0]) then [parsed[0]] else []) + FontNamesFromFile(parsed[1..])
  }

  /** `key` is the lower-cased form of a non-empty family or full name of `r`. */
  predicate NamesKey(r: NameRecord, key: string) {
    || (r.familyName != "" && key == Lower(r.familyName))
    || (r.fullName != "" && key == Lower(r.fullName))
  }

  /** Appends `x` unless it is already listed. */
  function AddOnce<T(==)>(xs: seq<T>, x: T): seq<T> {
    if x in xs then xs else xs + [x]
  }

  /** The files listed under `key`, or none. */
  function Lookup(m: NameIndex, key: string): seq<string> {
    if key in m then m[key] else []
  }

  /** Records `fileName` under `key`, creating the key when missing and
      skipping a file already recorded there. */
  function AddFile(m: NameIndex, key: string, fileName: string): NameIndex {
    m[key := AddOnce(Lookup(m, key), fileName)]
  }

  /** Indexes one name record: family name first, then full name, each only when non-empty. */
  function AddRecord(m: NameIndex, fileName: string, r: NameRecord): NameIndex {
    var m1 := if r.familyName != "" then AddFile(m, Lower(r.familyName), fileName) else m;
    if r.fullName != "" then AddFile(m1, Lower(r.fullName), fileName) else m1
  }

  function AddRecords(m: NameIndex, fileName: string, rs: seq<NameRecord>): NameIndex
    decreases |rs|
  {
    if |rs| == 0 then m else AddRecords(AddRecord(m, fileName, rs[0]), fileName, rs[1..])
  }

  /** Indexes one directory entry; files without a font extension are skipped. */
  function AddEntry(m: NameIndex, e: DirEntry): NameIndex {
    if IsFontFileName(e.fileName) && e.read.Read? then AddRecords(m, e.fileName, FontNamesFromFile(e.read.records)) else m
  }

  /** The index of entries that are all read, taken in listing order. */
  function IndexEntries(entries: seq<DirEntry>): NameIndex
    decreases |entries|
  {
    if |entries| == 0 then map[]
    else AddEntry(IndexEntries(entries[..|entries| - 1]), entries[|entries| - 1])
  }

  /** Reading this entry leaves the scan: a font file whose reading aborts. */
  predicate Aborts(e: DirEntry) {
    IsFontFileName(e.fileName) && e.read.Aborted?
  }

  /** How many entries the scan gets through: all of them, or those before
      the first one that aborts. */
  function ScanLength(entries: seq<DirEntry>): (n: nat)
    ensures n <= |entries|
    ensures forall i | 0 <= i < n :: !Aborts(entries[i])
    ensures n < |entries| ==> Aborts(entries[n])
  {
    if |entries| == 0 || Aborts(entries[0]) then 0 else 1 + ScanLength(entries[1..])
  }

  /** The index of a listing: the scan stops at the first font file whose
      reading aborts, and the catch-all around the loop returns what was
      indexed until then. */
  function BuildIndex(entries: seq<DirEntry>): NameIndex {
    IndexEntries(entries[..ScanLength(entries)])
  }

  /** `_build_font_name_mapping`: an empty index when the path is not a
      readable directory. */
  function BuildFontNameMapping(dir: FontDirectory): (r: NameIndex)
    ensures !dir.Listing? ==> r == map[]
    ensures forall key | key in r :: r[key] != [] && forall f | f in r[key] :: IsFontFileName(f)
  {
    match dir
    case Listing(entries) =>
      IndexListsFontFiles(entries[..ScanLength(entries)]);
      BuildIndex(entries)
    case _ => map[]
  }

  // ---------------------------------------------------------------------
  // Reference definition: which files a key lists, and in which order
  // ---------------------------------------------------------------------

  /** Entry `e` is a font file one of whose resources is named `key`. */
  predicate Contributes(e: DirEntry, key: string) {
    IsFontFileName(e.fileName) && e.read.Read? && exists r | r in e.read.records :: NamesKey(r, key)
  }

  /** The file names of the entries that contribute `key`, in listing order,
      repeats included. */
  function ContributingFiles(entries: seq<DirEntry>, key: string): seq<string>
    decreases |entries|
  {
    if |entries| == 0 then []
    else
      var last := entries[|entries| - 1];
      ContributingFiles(entries[..|entries| - 1], key) + (if Contributes(last, key) then [last.fileName] else [])
  }

  /** The first occurrence of every element, in order of first occurrence. */
  function Dedup<T(==)>(s: seq<T>): seq<T>
    decreases |s|
  {
    if |s| == 0 then [] else AddOnce(Dedup(s[..|s| - 1]), s[|s| - 1])
  }

  /** Position of the first occurrence of `x` in `s`. */
  function FirstIndex<T(==)>(s: seq<T>, x: T): (i: nat)
    requires x in s
    ensures i < |s| && s[i] == x && x !in s[..i]
  {
    if s[0] == x then 0
    else
      var j := FirstIndex(s[1..], x);
      assert s[..j + 1] == [s[0]] + s[1..][..j];
      j + 1
  }

  lemma AddOnceIdempotent<T>(xs: seq<T>, x: T)
    ensures AddOnce(AddOnce(xs, x), x) == AddOnce(xs, x)
  {
  }

  lemma {:induction false} DedupMembers<T>(s: seq<T>)
    ensures forall x :: x in Dedup(s) <==> x in s
    decreases |s|
  {
    if |s| > 0 {
      DedupMembers(s[..|s| - 1]);
      assert s == s[..|s| - 1] + [s[|s| - 1]];
    }
  }

  /** No element is listed twice. */
  lemma {:induction false} DedupDistinct<T>(s: seq<T>)
    ensures forall i, j | 0 <= i < j < |Dedup(s)| :: Dedup(s)[i] != Dedup(s)[j]
    decreases |s|
  {
    if |s| > 0 {
      DedupDistinct(s[..|s| - 1]);
    }
  }

  lemma {:induction false} FirstIndexSnoc<T>(s: seq<T>, y: T, x: T)
    requires x in s
    ensures FirstIndex(s + [y], x) == FirstIndex(s, x)
    decreases |s|
  {
    if s[0] != x {
      assert (s + [y])[1..] == s[1..] + [y];
      FirstIndexSnoc(s[1..], y, x);
    }
  }

  lemma {:induction false} FirstIndexOfNew<T>(s: seq<T>, x: T)
    requires x !in s
    ensures FirstIndex(s + [x], x) == |s|
    decreases |s|
  {
  }

  /** Elements keep the order of their first occurrence in `s`. */
  lemma {:induction false} DedupKeepsFirstOccurrenceOrder<T>(s: seq<T>)
    ensures forall x | x in Dedup(s) :: x in s
    ensures forall i, j | 0 <= i < j < |Dedup(s)| ::
      FirstIndex(s, Dedup(s)[i]) < FirstIndex(s, Dedup(s)[j])
    decreases |s|
  {
    DedupMembers(s);
    if |s| > 0 {
      var pre, x := s[..|s| - 1], s[|s| - 1];
      assert s == pre + [x];
      DedupKeepsFirstOccurrenceOrder(pre);
      DedupMembers(pre);
      var d := Dedup(pre);
      forall i, j | 0 <= i < j < |Dedup(s)|
        ensures FirstIndex(s, Dedup(s)[i]) < FirstIndex(s, Dedup(s)[j])
      {
        FirstIndexSnoc(pre, x, Dedup(s)[i]);
        if x in d {
          FirstIndexSnoc(pre, x, Dedup(s)[j]);
        } else if j < |d| {
          FirstIndexSnoc(pre, x, Dedup(s)[j]);
        } else {
          FirstIndexOfNew(pre, x);
        }
      }
    }
  }

  // ---------------------------------------------------------------------
  // The index agrees with the reference definition
  // ---------------------------------------------------------------------

  /** Every key of the index lists at least one file. */
  ghost predicate NoEmptyLists(m: NameIndex) {
    forall k | k in m :: m[k] != []
  }

  lemma AddRecordLookup(m: NameIndex, fileName: string, r: NameRecord, key: string)
    requires NoEmptyLists(m)
    ensures NoEmptyLists(AddRecord(m, fileName, r))
    ensures Lookup(AddRecord(m, fileName, r), key)
         == if NamesKey(r, key) then AddOnce(Lookup(m, key), fileName) else Lookup(m, key)
  {
  }

  lemma {:induction false} AddRecordsLookup(m: NameIndex, fileName: string, rs: seq<NameRecord>, key: string)
    requires NoEmptyLists(m)
    ensures NoEmptyLists(AddRecords(m, fileName, rs))
    ensures Lookup(AddRecords(m, fileName, rs), key)
         == if exists r | r in rs :: NamesKey(r, key) then AddOnce(Lookup(m, key), fileName) else Lookup(m, key)
    decreases |rs|
  {
    if |rs| > 0 {
      var m1 := AddRecord(m, fileName, rs[0]);
      AddRecordLookup(m, fileName, rs[0], key);
      AddRecordsLookup(m1, fileName, rs[1..], key);
      AddOnceIdempotent(Lookup(m, key), fileName);
      if exists r | r in rs[1..] :: NamesKey(r, key) {
        var r :| r in rs[1..] && NamesKey(r, key);
        assert r in rs;
      }
      if exists r | r in rs :: NamesKey(r, key) {
        var r :| r in rs && NamesKey(r, key);
        assert r == rs[0] || r in rs[1..];
      }
    }
  }

  lemma AddEntryLookup(m: NameIndex, e: DirEntry, key: string)
    requires NoEmptyLists(m)
    ensures NoEmptyLists(AddEntry(m, e))
    ensures Lookup(AddEntry(m, e), key)
         == if Contributes(e, key) then AddOnce(Lookup(m, key), e.fileName) else Lookup(m, key)
  {
    if IsFontFileName(e.fileName) && e.read.Read? {
      var named := FontNamesFromFile(e.read.records);
      AddRecordsLookup(m, e.fileName, named, key);
      if exists r | r in e.read.records :: NamesKey(r, key) {
        var r :| r in e.read.records && NamesKey(r, key);
        assert r in named;
      }
    }
  }

  /** What the loop lists under a key is the reference list, deduplicated. */
  lemma {:induction false} IndexEntriesLookup(entries: seq<DirEntry>, key: string)
    ensures NoEmptyLists(IndexEntries(entries))
    ensures Lookup(IndexEntries(entries), key) == Dedup(ContributingFiles(entries, key))
    decreases |entries|
  {
    if |entries| > 0 {
      var pre, last := entries[..|entries| - 1], entries[|entries| - 1];
      IndexEntriesLookup(pre, key);
      AddEntryLookup(IndexEntries(pre), last, key);
      var c := ContributingFiles(pre, key);
      if Contributes(last, key) {
        assert (c + [last.fileName])[..|c|] == c;
      } else {
        assert c + [] == c;
      }
    }
  }

  lemma {:induction false} ContributingFilesMembers(entries: seq<DirEntry>, key: string)
    ensures forall f :: f in ContributingFiles(entries, key) <==>
      exists i | 0 <= i < |entries| :: entries[i].fileName == f && Contributes(entries[i], key)
    decreases |entries|
  {
    if |entries| > 0 {
      var pre := entries[..|entries| - 1];
      ContributingFilesMembers(pre, key);
      forall f | f in ContributingFiles(entries, key)
        ensures exists i | 0 <= i < |entries| :: entries[i].fileName == f && Contributes(entries[i], key)
      {
        if f in ContributingFiles(pre, key) {
          var i :| 0 <= i < |pre| && pre[i].fileName == f && Contributes(pre[i], key);
          assert entries[i] == pre[i];
        } else {
          assert entries[|entries| - 1].fileName == f;
        }
      }
      forall f | exists i | 0 <= i < |entries| :: entries[i].fileName == f && Contributes(entries[i], key)
        ensures f in ContributingFiles(entries, key)
      {
        var i :| 0 <= i < |entries| && entries[i].fileName == f && Contributes(entries[i], key);
        if i < |pre| {
          assert pre[i] == entries[i];
        }
      }
    }
  }

  /** The index built from a readable directory: a key is present exactly when
      some font file the scan got through carries that name, and it lists
      those files, each once, in the order of their first appearance in the
      listing. Every listed file is a font file of the listing, so an
      unreadable or missing directory gives the empty index. */
  lemma BuildFontNameMappingSpec(dir: FontDirectory, key: string)
    ensures !dir.Listing? ==> BuildFontNameMapping(dir) == map[]
    ensures dir.Listing? ==>
      (key in BuildFontNameMapping(dir) <==>
        exists i | 0 <= i < ScanLength(dir.entries) :: Contributes(dir.entries[i], key))
    ensures dir.Listing? && key in BuildFontNameMapping(dir) ==>
      BuildFontNameMapping(dir)[key] == Dedup(ContributingFiles(dir.entries[..ScanLength(dir.entries)], key))
    ensures dir.Listing? && key in BuildFontNameMapping(dir) ==>
      forall f | f in BuildFontNameMapping(dir)[key] ::
        IsFontFileName(f) && exists i | 0 <= i < ScanLength(dir.entries) :: dir.entries[i].fileName == f
  {
    if dir.Listing? {
      var n := ScanLength(dir.entries);
      var es := dir.entries[..n];
      IndexEntriesSpec(es, key);
      assert forall i | 0 <= i < n :: es[i] == dir.entries[i];
    }
  }

  /** The index of entries that are all read: a key is present exactly when
      one of them contributes it, and it lists the contributing font files. */
  lemma IndexEntriesSpec(es: seq<DirEntry>, key: string)
    ensures key in IndexEntries(es) <==> exists i | 0 <= i < |es| :: Contributes(es[i], key)
    ensures key in IndexEntries(es) ==> IndexEntries(es)[key] == Dedup(ContributingFiles(es, key))
    ensures key in IndexEntries(es) ==> IndexEntries(es)[key] != []
    ensures key in IndexEntries(es) ==>
      forall f | f in IndexEntries(es)[key] :: IsFontFileName(f) && exists i | 0 <= i < |es| :: es[i].fileName == f
  {
    IndexEntriesLookup(es, key);
    ContributingFilesMembers(es, key);
    var c := ContributingFiles(es, key);
    DedupMembers(c);
    if exists i | 0 <= i < |es| :: Contributes(es[i], key) {
      var i :| 0 <= i < |es| && Contributes(es[i], key);
      assert es[i].fileName in c;
      assert Dedup(c) != [];
    }
    if key in IndexEntries(es) {
      assert Dedup(c) != [];
      assert c[0] in c;
    }
  }

  /** Every list of the index is non-empty and names font files only. */
  lemma IndexListsFontFiles(es: seq<DirEntry>)
    ensures forall key | key in IndexEntries(es) ::
      IndexEntries(es)[key] != [] && forall f | f in IndexEntries(es)[key] :: IsFontFileName(f)
  {
    forall key | key in IndexEntries(es)
      ensures IndexEntries(es)[key] != [] && forall f | f in IndexEntries(es)[key] :: IsFontFileName(f)
    {
      IndexEntriesSpec(es, key);
    }
  }

  /** The scan gets through every entry before the first one that aborts,
      and no further: what follows that entry is never indexed. */
  lemma ScanStopsAtFirstAbort(before: seq<DirEntry>, e: DirEntry, after: seq<DirEntry>)
    requires forall i | 0 <= i < |before| :: !Aborts(before[i])
    requires Aborts(e)
    ensures BuildIndex(before + [e] + after) == IndexEntries(before)
  {
    var entries := before + [e] + after;
    assert ScanLength(entries) == |before| by {
      ScanLengthAtAbort(before, e, after);
    }
    assert entries[..|before|] == before by {
      PrefixOfJoin(before, e, after);
    }
    IndexOfScannedPrefix(entries, before);
  }

  lemma PrefixOfJoin(before: seq<DirEntry>, e: DirEntry, after: seq<DirEntry>)
    ensures (before + [e] + after)[..|before|] == before
  {
    var entries := before + [e] + after;
    assert forall i | 0 <= i < |before| :: entries[i] == before[i];
  }

  lemma IndexOfScannedPrefix(entries: seq<DirEntry>, before: seq<DirEntry>)
    requires ScanLength(entries) == |before| && entries[..|before|] == before
    ensures BuildIndex(entries) == IndexEntries(before)
  {
  }

  lemma {:induction false} ScanLengthAtAbort(before: seq<DirEntry>, e: DirEntry, after: seq<DirEntry>)
    requires forall i | 0 <= i < |before| :: !Aborts(before[i])
    requires Aborts(e)
    ensures ScanLength(before + [e] + after) == |before|
    decreases |before|
  {
    var entries := before + [e] + after;
    if |before| == 0 {
      assert entries[0] == e;
    } else {
      assert entries[0] == before[0];
      assert entries[1..] == before[1..] + [e] + after;
      ScanLengthAtAbort(before[1..], e, after);
    }
  }

  /** A listing without an aborting font file is indexed in full. */
  lemma ScanReadsEverythingWithoutAbort(entries: seq<DirEntry>)
    requires forall i | 0 <= i < |entries| :: !Aborts(entries[i])
    ensures BuildIndex(entries) == IndexEntries(entries)
  {
    assert entries[..ScanLength(entries)] == entries;
  }

  /** A sub-directory named like a font file, listed first, hides a readable
      font listed after it. */
  lemma AbortedEntryHidesLaterFonts()
    ensures BuildIndex([DirEntry("a.ttf", Aborted), DirEntry("b.ttf", Read([NameRecord("", "Foo", "")]))]) == map[]
  {
    var entries := [DirEntry("a.ttf", Aborted), DirEntry("b.ttf", Read([NameRecord("", "Foo", "")]))];
    assert Aborts(entries[0]) by {
      assert Lower("a.ttf") == "a.ttf";
      assert EndsWith("a.ttf", ".ttf");
    }
    assert ScanLength(entries) == 0;
    assert entries[..0] == [];
  }

  /** Each list of the index is free of repeats and in first-insertion order. */
  lemma IndexListsDistinctAndOrdered(entries: seq<DirEntry>, key: string)
    requires key in BuildIndex(entries)
    ensures var scanned := entries[..ScanLength(entries)];
      forall f | f in BuildIndex(entries)[key] :: f in ContributingFiles(scanned, key)
    ensures forall i, j | 0 <= i < j < |BuildIndex(entries)[key]| ::
      BuildIndex(entries)[key][i] != BuildIndex(entries)[key][j]
    ensures var scanned := entries[..ScanLength(entries)];
      forall i, j | 0 <= i < j < |BuildIndex(entries)[key]| ::
        FirstIndex(ContributingFiles(scanned, key), BuildIndex(entries)[key][i])
          < FirstIndex(ContributingFiles(scanned, key), BuildIndex(entries)[key][j])
  {
    var scanned := entries[..ScanLength(entries)];
    IndexEntriesLookup(scanned, key);
    DedupMembers(ContributingFiles(scanned, key));
    DedupDistinct(ContributingFiles(scanned, key));
    DedupKeepsFirstOccurrenceOrder(ContributingFiles(scanned, key));
  }

  /** A resource with neither a full name nor a family name adds no key, so
      dropping such resources, as `_get_font_names_from_file` does, does not
      change the index. */
  lemma {:induction false} NamelessRecordsAddNothing(m: NameIndex, fileName: string, rs: seq<NameRecord>)
    ensures forall r | r in rs && !HasName(r) :: AddRecord(m, fileName, r) == m
    ensures AddRecords(m, fileName, rs) == AddRecords(m, fileName, FontNamesFromFile(rs))
    decreases |rs|
  {
    if |rs| > 0 {
      if HasName(rs[0]) {
        NamelessRecordsAddNothing(AddRecord(m, fileName, rs[0]), fileName, rs[1..]);
        assert FontNamesFromFile(rs) == [rs[0]] + FontNamesFromFile(rs[1..]);
        assert ([rs[0]] + FontNamesFromFile(rs[1..]))[1..] == FontNamesFromFile(rs[1..]);
      } else {
        NamelessRecordsAddNothing(m, fileName, rs[1..]);
        assert FontNamesFromFile(rs) == FontNamesFromFile(rs[1..]);
      }
      forall r | r in rs && !HasName(r)
        ensures AddRecord(m, fileName, r) == m
      {
      }
    }
  }
}
