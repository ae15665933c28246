/**
  The library scanner, `find_ebooks_in_calibre_library`: every file the
  directory walk reports whose extension is on the allow-list, joined onto its
  directory, in walk order. The walk itself is an input.
 */
module LibraryScanner {
  import opened Wrappers
  import opened Text
  import opened Subsequences

  /** One triple `(root, dirs, files)` produced by `os.walk`. */
  datatype WalkEntry = WalkEntry(root: String, dirs: seq<String>, files: seq<String>)

  /** One walked file, before the extension test. */
  datatype Candidate = Candidate(root: String, file: String)

  const DefaultFormats: seq<String> := ["epub", "mobi", "pdf", "azw3", "fb2"]

  /** The allow-list in force: the default list for `None`, the caller's list otherwise. */
  function AllowList(supportedFormats: Option<seq<String>>): (formats: seq<String>)
    ensures supportedFormats.None? ==> formats == ["epub", "mobi", "pdf", "azw3", "fb2"]
    ensures supportedFormats.Some? ==> formats == supportedFormats.value
  {
    match supportedFormats
    case None => DefaultFormats
    case Some(given) => given
  }

  /** `file.split('.')[-1].lower()`. */
  function Extension(file: String): String {
    Lower(LastSegment(file, '.'))
  }

  /** The test on each walked file: its extension is a member of the list. */
  predicate IsSupported(file: String, formats: seq<String>) {
    Extension(file) in formats
  }

  /** The paths a directory's files contribute, in the order listed. */
  function ScanFiles(root: String, files: seq<String>, formats: seq<String>): (paths: seq<String>)
    ensures |paths| <= |files|
  {
    if files == [] then []
    else
      var n := |files| - 1;
      ScanFiles(root, files[..n], formats)
        + (if IsSupported(files[n], formats) then [JoinPath(root, files[n])] else [])
  }

  /** The list the scanner returns for a whole walk. */
  function Scanned(walk: seq<WalkEntry>, formats: seq<String>): seq<String> {
    if walk == [] then []
    else
      var n := |walk| - 1;
      Scanned(walk[..n], formats) + ScanFiles(walk[n].root, walk[n].files, formats)
  }

  method FindEbooksInCalibreLibrary(walk: seq<WalkEntry>, supportedFormats: Option<seq<String>>)
    returns (ebookPaths: seq<String>)
    ensures ebookPaths == Scanned(walk, AllowList(supportedFormats))
  {
    var formats := AllowList(supportedFormats);
    ebookPaths := [];
    for i := 0 to |walk|
      invariant ebookPaths == Scanned(walk[..i], formats)
    {
      var entry := walk[i];
      ghost var before := ebookPaths;
      for j := 0 to |entry.files|
        invariant ebookPaths == before + ScanFiles(entry.root, entry.files[..j], formats)
      {
        var file := entry.files[j];
        if IsSupported(file, formats) {
          ebookPaths := ebookPaths + [JoinPath(entry.root, file)];
        }
        ScanFilesSnoc(entry.root, entry.files, j, formats);
      }
      assert entry.files[..|entry.files|] == entry.files;
      ScannedSnoc(walk, i, formats);
    }
    assert walk[..|walk|] == walk;
  }

  lemma ScanFilesSnoc(root: String, files: seq<String>, j: nat, formats: seq<String>)
    requires j < |files|
    ensures ScanFiles(root, files[..j + 1], formats) == ScanFiles(root, files[..j], formats)
      + (if IsSupported(files[j], formats) then [JoinPath(root, files[j])] else [])
  {
    assert files[..j + 1][..j] == files[..j];
  }

  lemma ScannedSnoc(walk: seq<WalkEntry>, i: nat, formats: seq<String>)
    requires i < |walk|
    ensures Scanned(walk[..i + 1], formats) == Scanned(walk[..i], formats)
      + ScanFiles(walk[i].root, walk[i].files, formats)
  {
    assert walk[..i + 1][..i] == walk[..i];
  }

  // ---- The walk, flattened ----

  function TotalFiles(walk: seq<WalkEntry>): nat {
    if walk == [] then 0 else TotalFiles(walk[..|walk| - 1]) + |walk[|walk| - 1].files|
  }

  function EntryCandidates(root: String, files: seq<String>): seq<Candidate> {
    seq(|files|, j requires 0 <= j < |files| => Candidate(root, files[j]))
  }

  /** Every walked file, roots in walk order and files in listed order within a root. */
  function Candidates(walk: seq<WalkEntry>): (cs: seq<Candidate>)
    ensures |cs| == TotalFiles(walk)
  {
    if walk == [] then []
    else
      var n := |walk| - 1;
      Candidates(walk[..n]) + EntryCandidates(walk[n].root, walk[n].files)
  }

  function PathsOf(cs: seq<Candidate>): (ps: seq<String>)
    ensures |ps| == |cs|
  {
    seq(|cs|, k requires 0 <= k < |cs| => JoinPath(cs[k].root, cs[k].file))
  }

  function SupportedFlags(cs: seq<Candidate>, formats: seq<String>): (flags: seq<bool>)
    ensures |flags| == |cs|
  {
    seq(|cs|, k requires 0 <= k < |cs| => IsSupported(cs[k].file, formats))
  }

  lemma PathsOfAppend(a: seq<Candidate>, b: seq<Candidate>)
    ensures PathsOf(a + b) == PathsOf(a) + PathsOf(b)
  {
    var ab := a + b;
    forall k | 0 <= k < |ab|
      ensures PathsOf(ab)[k] == (PathsOf(a) + PathsOf(b))[k]
    {
      if k < |a| {
        assert ab[k] == a[k];
      } else {
        assert ab[k] == b[k - |a|];
      }
    }
  }

  lemma SupportedFlagsAppend(a: seq<Candidate>, b: seq<Candidate>, formats: seq<String>)
    ensures SupportedFlags(a + b, formats) == SupportedFlags(a, formats) + SupportedFlags(b, formats)
  {
    var ab := a + b;
    assert forall k :: 0 <= k < |a| ==> ab[k] == a[k];
    assert forall k :: |a| <= k < |ab| ==> ab[k] == b[k - |a|];
  }

  lemma {:induction false} ScanFilesIsSelection(root: String, files: seq<String>, formats: seq<String>)
    ensures var cs := EntryCandidates(root, files);
      ScanFiles(root, files, formats) == Select(PathsOf(cs), SupportedFlags(cs, formats))
  {
    if files != [] {
      var n := |files| - 1;
      var cs := EntryCandidates(root, files);
      var cs' := EntryCandidates(root, files[..n]);
      ScanFilesIsSelection(root, files[..n], formats);
      assert cs == cs' + [Candidate(root, files[n])];
      PathsOfAppend(cs', [Candidate(root, files[n])]);
      SupportedFlagsAppend(cs', [Candidate(root, files[n])], formats);
      SelectAppend(PathsOf(cs'), SupportedFlags(cs', formats),
                   PathsOf([Candidate(root, files[n])]), SupportedFlags([Candidate(root, files[n])], formats));
    }
  }

  /**
    The scanner's output is the flattened walk filtered by the extension test:
    the recursive definition the loop follows and the flat one agree.
   */
  lemma {:induction false} ScannedIsSelection(walk: seq<WalkEntry>, formats: seq<String>)
    ensures var cs := Candidates(walk);
      Scanned(walk, formats) == Select(PathsOf(cs), SupportedFlags(cs, formats))
  {
    if walk != [] {
      var n := |walk| - 1;
      var a := Candidates(walk[..n]);
      var b := EntryCandidates(walk[n].root, walk[n].files);
      ScannedIsSelection(walk[..n], formats);
      ScanFilesIsSelection(walk[n].root, walk[n].files, formats);
      PathsOfAppend(a, b);
      SupportedFlagsAppend(a, b, formats);
      SelectAppend(PathsOf(a), SupportedFlags(a, formats), PathsOf(b), SupportedFlags(b, formats));
    }
  }

  /** Where the `j`-th file of the `i`-th root sits in the flattened walk. */
  lemma {:induction false} CandidateAt(walk: seq<WalkEntry>, i: nat, j: nat)
    requires i < |walk| && j < |walk[i].files|
    ensures TotalFiles(walk[..i]) + j < |Candidates(walk)|
    ensures Candidates(walk)[TotalFiles(walk[..i]) + j] == Candidate(walk[i].root, walk[i].files[j])
  {
    var n := |walk| - 1;
    if i == n {
      assert walk[..n] == walk[..i];
    } else {
      assert walk[..n][..i] == walk[..i];
      CandidateAt(walk[..n], i, j);
    }
  }

  /**
    The scanner output is the list of joined walk paths read at increasing
    positions, and those positions are exactly the files passing the extension
    test: nothing reordered, nothing matching dropped, nothing else kept.
   */
  lemma ScannedInWalkOrder(walk: seq<WalkEntry>, formats: seq<String>)
    ensures var cs := Candidates(walk);
      SelectedAt(Scanned(walk, formats), PathsOf(cs), SupportedFlags(cs, formats), KeptPositions(SupportedFlags(cs, formats)))
  {
    var cs := Candidates(walk);
    ScannedIsSelection(walk, formats);
    SelectAtKeptPositions(PathsOf(cs), SupportedFlags(cs, formats));
  }

  /** The `j`-th file of the `i`-th walked root passes the test and joins to `p`. */
  ghost predicate Contributes(walk: seq<WalkEntry>, formats: seq<String>, i: int, j: int, p: String) {
    0 <= i < |walk| && 0 <= j < |walk[i].files| &&
    IsSupported(walk[i].files[j], formats) && p == JoinPath(walk[i].root, walk[i].files[j])
  }

  /** The flattened path and test result at the position of the `j`-th file of the `i`-th root. */
  lemma FlatAt(walk: seq<WalkEntry>, formats: seq<String>, i: nat, j: nat)
    requires i < |walk| && j < |walk[i].files|
    ensures var cs, k := Candidates(walk), TotalFiles(walk[..i]) + j;
      k < |cs| &&
      SupportedFlags(cs, formats)[k] == IsSupported(walk[i].files[j], formats) &&
      PathsOf(cs)[k] == JoinPath(walk[i].root, walk[i].files[j])
  {
    CandidateAt(walk, i, j);
  }

  lemma ScannedSound(walk: seq<WalkEntry>, formats: seq<String>, p: String) returns (i: nat, j: nat)
    requires p in Scanned(walk, formats)
    ensures Contributes(walk, formats, i, j, p)
  {
    var cs := Candidates(walk);
    ScannedIsSelection(walk, formats);
    SelectMembership(PathsOf(cs), SupportedFlags(cs, formats), p);
    var k :| 0 <= k < |cs| && SupportedFlags(cs, formats)[k] && PathsOf(cs)[k] == p;
    i, j := Locate(walk, k);
    FlatAt(walk, formats, i, j);
  }

  lemma ScannedComplete(walk: seq<WalkEntry>, formats: seq<String>, i: nat, j: nat, p: String)
    requires Contributes(walk, formats, i, j, p)
    ensures p in Scanned(walk, formats)
  {
    var cs := Candidates(walk);
    ScannedIsSelection(walk, formats);
    FlatAt(walk, formats, i, j);
    SelectMembership(PathsOf(cs), SupportedFlags(cs, formats), p);
  }

  /** A path is in the output if and only if some walked file with a listed extension joins to it. */
  lemma ScannedMembership(walk: seq<WalkEntry>, formats: seq<String>, p: String)
    ensures p in Scanned(walk, formats) <==> exists i, j :: Contributes(walk, formats, i, j, p)
  {
    if p in Scanned(walk, formats) {
      var i, j := ScannedSound(walk, formats, p);
    }
    if i, j :| Contributes(walk, formats, i, j, p) {
      ScannedComplete(walk, formats, i, j, p);
    }
  }

  /** Every flattened position comes from some root and file. */
  lemma {:induction false} Locate(walk: seq<WalkEntry>, k: nat) returns (i: nat, j: nat)
    requires k < TotalFiles(walk)
    ensures i < |walk| && j < |walk[i].files| && k == TotalFiles(walk[..i]) + j
  {
    var n := |walk| - 1;
    if k < TotalFiles(walk[..n]) {
      i, j := Locate(walk[..n], k);
      assert walk[..n][..i] == walk[..i];
    } else {
      i, j := n, k - TotalFiles(walk[..n]);
    }
  }

  /** The output is never longer than the walk; an empty walk gives an empty list. */
  lemma ScannedLength(walk: seq<WalkEntry>, formats: seq<String>)
    ensures |Scanned(walk, formats)| <= TotalFiles(walk)
    ensures walk == [] ==> Scanned(walk, formats) == []
  {
    ScannedIsSelection(walk, formats);
  }

  // ---- The extension test ----

  /** A name with no dot is judged on the whole name, lowercased. */
  lemma DotlessNameJudgedWhole(file: String)
    requires '.' !in file
    ensures Extension(file) == Lower(file)
  {
    DotlessLastSegment(file, '.');
  }

  /** The extension is the lowercased text after the last dot. */
  lemma ExtensionAfterLastDot(stem: String, ext: String)
    requires '.' !in ext
    ensures Extension(stem + "." + ext) == Lower(ext)
  {
    LastSegmentAfterSeparator(stem, ext, '.');
  }

  /** Only the file side is lowercased: a list entry with a capital letter never matches. */
  lemma UppercaseEntryNeverMatches(file: String, entry: String, k: nat)
    requires k < |entry| && IsUpper(entry[k])
    ensures Extension(file) != entry
  {
  }

  /** The string facts the scenario below needs, kept apart from its larger context. */
  lemma ScenarioStrings()
    ensures Lower("epub") == "epub" && Lower("txt") == "txt" && Lower("PDF") == "pdf"
    ensures JoinPath("lib", "a.epub") == "lib/a.epub" && JoinPath("lib", "c.PDF") == "lib/c.PDF"
    ensures "a" + "." + "epub" == "a.epub" && "b" + "." + "txt" == "b.txt" && "c" + "." + "PDF" == "c.PDF"
  {
    ScenarioLower();
    ScenarioJoins();
  }

  lemma ScenarioLower()
    ensures Lower("epub") == "epub" && Lower("txt") == "txt" && Lower("PDF") == "pdf"
  {
    var epub: String, txt: String, pdf: String := "epub", "txt", "PDF";
    assert Lower(epub) == [LowerChar('e'), LowerChar('p'), LowerChar('u'), LowerChar('b')];
    assert Lower(txt) == [LowerChar('t'), LowerChar('x'), LowerChar('t')];
    assert Lower(pdf) == [LowerChar('P'), LowerChar('D'), LowerChar('F')];
  }

  lemma ScenarioJoins()
    ensures JoinPath("lib", "a.epub") == "lib/a.epub" && JoinPath("lib", "c.PDF") == "lib/c.PDF"
  {
    var lib: String := "lib";
    assert lib[2] == 'b';
  }

  lemma ScenarioExtensions()
    ensures Extension("a.epub") == "epub" && Extension("b.txt") == "txt" && Extension("c.PDF") == "pdf"
    ensures IsSupported("a.epub", DefaultFormats) && !IsSupported("b.txt", DefaultFormats) && IsSupported("c.PDF", DefaultFormats)
  {
    ScenarioStrings();
    ExtensionAfterLastDot("a", "epub");
    ExtensionAfterLastDot("b", "txt");
    ExtensionAfterLastDot("c", "PDF");
  }

  /** The root `lib` holding `a.epub`, `b.txt` and `c.PDF`, with the default list. */
  lemma DefaultListScenario()
    ensures Scanned([WalkEntry("lib", [], ["a.epub", "b.txt", "c.PDF"])], DefaultFormats) == ["lib/a.epub", "lib/c.PDF"]
  {
    var files: seq<String> := ["a.epub", "b.txt", "c.PDF"];
    ScenarioExtensions();
    ScenarioStrings();
    assert ScanFiles("lib", files[..0], DefaultFormats) == [];
    ScanFilesSnoc("lib", files, 0, DefaultFormats);
    ScanFilesSnoc("lib", files, 1, DefaultFormats);
    ScanFilesSnoc("lib", files, 2, DefaultFormats);
    assert files[..3] == files;
    assert ScanFiles("lib", files, DefaultFormats) == ["lib/a.epub", "lib/c.PDF"];
    var walk := [WalkEntry("lib", [], files)];
    assert walk[..0] == [];
    assert Scanned(walk, DefaultFormats) == [] + ScanFiles("lib", files, DefaultFormats);
  }

  /** A leading dot leaves the whole rest as the extension; a capitalised list entry is never met. */
  lemma ExtensionEdgeCases()
    ensures IsSupported(".epub", DefaultFormats)
    ensures !IsSupported("x.EPUB", ["EPUB"])
  {
    ExtensionAfterLastDot("", "epub");
    assert "" + "." + "epub" == ".epub";
    assert Lower("epub") == "epub";
    UppercaseEntryNeverMatches("x.EPUB", "EPUB", 0);
  }
}
