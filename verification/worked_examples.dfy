/**
 * Worked examples: concrete file names of one report section, worked out by
 * lemmas, with dates read by the strict ISO parser.
 */
module WorkedExamples {
  import opened Results
  import opened Strings
  import opened FileKeys
  import opened Pairing
  import opened IsoDates
  import opened KeySort
  import opened SectionOrder

  /** `2021-01-01` is read as that calendar day. */
  lemma DateExample()
    ensures ParseIsoDate("2021-01-01") == Some(Date(2021, 1, 1))
  {
    var d := Date(2021, 1, 1);
    assert Pad2(20) == "20";
    assert Pad2(21) == "21";
    assert Pad2(1) == "01";
    assert FormatIsoDate(d) == "2021-01-01";
    ParseFormatIsoDate(d);
  }

  /** `007` is zero-padded: it never becomes the fly, so a name with no other integer misses it. */
  lemma MissingFlyExample()
    ensures KeyOfTokens(ClassifyAll(["2021-01-01", "007", "kiwi"], false, ParseIsoDate)) == Err(MissingFly)
  {
    DateExample();
    var d := Date(2021, 1, 1);
    assert ParseInt("2021-01-01") == None;
    var z := "007";
    assert "7"[..0] == "" && DigitsValue("7") == 7;
    LeadingZeroValue("7");
    assert "0" + "7" == "07";
    LeadingZeroValue("07");
    assert "0" + "07" == z;
    assert ParseInt(z) == Some(7);
    assert ParseIsoDate("007") == None;
    var toks := ClassifyAll(["2021-01-01", "007", "kiwi"], false, ParseIsoDate);
    assert toks == [DateToken(d), ZeroPadded(None), Panel(1)];
    assert toks[..2] == [DateToken(d), ZeroPadded(None)];
    assert toks[..1] == [DateToken(d)];
    assert Scan(toks[..1]) == Ok(Parts(Some(d), None, None));
    assert Scan(toks[..2]) == Ok(Parts(Some(d), None, None));
  }

  /** A name carrying `kiwi` twice is refused for its second panel token, even though it names the same panel. */
  lemma DuplicatePanelExample()
    ensures KeyOfTokens(ClassifyAll(["2021-01-01", "1", "kiwi", "kiwi"], false, ParseIsoDate)) == Err(DuplicatePanel)
  {
    var d := Date(2021, 1, 1);
    ClassifyExample("kiwi");
    var toks := ClassifyAll(["2021-01-01", "1", "kiwi", "kiwi"], false, ParseIsoDate);
    assert toks[..3] == ClassifyAll(["2021-01-01", "1", "kiwi"], false, ParseIsoDate);
    assert toks == [DateToken(d), Fly(1), Panel(1), Panel(1)];
    var pre := toks[..3];
    assert pre[..2][..1] == [DateToken(d)];
    assert pre[..2] == [DateToken(d), Fly(1)];
    assert pre[..1][..0] == [];
    assert Scan(pre[..1]) == Ok(Parts(Some(d), None, None));
    assert Scan(pre[..2]) == Ok(Parts(Some(d), Some(1), None));
    assert Scan(pre) == Ok(Parts(Some(d), Some(1), Some(1)));
  }

  /** Two kiwi files of one fly leave it without its control panel. */
  lemma UnpairedExample()
    ensures var d := Date(2021, 1, 1);
      FirstUnpaired([FileKey(d, 1, 1), FileKey(d, 1, 1)]) == Some(FlyId(d, 1))
  {
    var d := Date(2021, 1, 1);
    var keys := [FileKey(d, 1, 1), FileKey(d, 1, 1)];
    assert PanelsOf(keys, FlyId(d, 1)) == {1};
  }

  /** A section glob of the report and one fly's two figure files. */
  const Glob := "resp_frac_*"
  const KiwiFile := "resp_frac_2021-01-01_1_kiwi.pdf"
  const ControlFile := "resp_frac_2021-01-01_1_control.pdf"

  /** A pattern cannot start where its first character is absent or too near the end. */
  lemma AbsentByHead(s: string, pat: string, n: nat)
    requires |pat| > 0 && n <= |s|
    requires forall i :: 0 <= i < n && s[i] == pat[0] ==> i + |pat| > |s|
    ensures forall i: nat :: i < n ==> !OccursAt(s, pat, i)
  {
    forall i: nat | i < n ensures !OccursAt(s, pat, i) {
      if i + |pat| <= |s| {
        assert s[i..i + |pat|][0] == s[i];
      }
    }
  }

  /** The text every name of the section shares is the glob with `*` deleted. */
  lemma ExcludeExample()
    ensures ExcludeText(Glob) == "resp_frac_"
  {
    assert "resp_frac_" + "*" + "" == Glob;
    AbsentByHead(Glob, "*", 10);
    RemoveAllSkipsOccurrence("resp_frac_", "*", "");
  }

  /** The prefix the glob shares is deleted, leaving the identifying part. */
  lemma StemExample(body: string)
    requires forall i :: 0 <= i < |body| && body[i] == 'r' ==> i + 10 > |body|
    ensures RemoveAll("resp_frac_" + body, "resp_frac_") == body
  {
    AbsentByHead(body, "resp_frac_", |body|);
    assert "" + "resp_frac_" + body == "resp_frac_" + body;
    RemoveAllSkipsOccurrence("", "resp_frac_", body);
    RemoveAllAbsent(body, "resp_frac_");
  }

  /** With the shared text deleted, a name splits into its identifying tokens. */
  lemma PiecesExample(f: string, body: string, pieces: seq<string>)
    requires HasExtension(f)
    requires f[..|f| - 4] == "resp_frac_" + body
    requires forall i :: 0 <= i < |body| && body[i] == 'r' ==> i + 10 > |body|
    requires |pieces| >= 1 && Join(pieces, '_') == body
    requires forall k :: 0 <= k < |pieces| ==> '_' !in pieces[k]
    ensures Tokens(f, ExcludeText(Glob)) == pieces
  {
    ExcludeExample();
    StemExample(body);
    assert RemoveAll(f[..|f| - 4], ExcludeText(Glob)) == body;
    SplitJoin(pieces, '_');
  }

  /** A date, a fly number and a panel, in that order, make a key. */
  lemma ScanExample(d: Date, n: int, p: int)
    ensures KeyOfTokens([DateToken(d), Fly(n), Panel(p)]) == Ok(FileKey(d, n, p))
  {
    var toks := [DateToken(d), Fly(n), Panel(p)];
    assert toks[..2][..1] == [DateToken(d)];
    assert toks[..2] == [DateToken(d), Fly(n)];
    assert toks[..1][..0] == [];
    assert Scan(toks[..1]) == Ok(Parts(Some(d), None, None));
    assert Scan(toks[..2]) == Ok(Parts(Some(d), Some(n), None));
  }

  /** The tokens of a well-formed name: a date, a fly number and a panel literal. */
  lemma ClassifyExample(panel: string)
    requires panel == KiwiToken || panel == ControlToken
    ensures ClassifyAll(["2021-01-01", "1", panel], false, ParseIsoDate)
            == [DateToken(Date(2021, 1, 1)), Fly(1), Panel(if panel == KiwiToken then 1 else 0)]
  {
    DateExample();
    assert ParseInt("2021-01-01") == None;
    assert ParseInt("1") == Some(1);
  }

  /** In reverse-chronological mode with control last, kiwi is panel 1 ... */
  lemma KiwiKeyExample()
    ensures HasExtension(KiwiFile)
    ensures SectionKey(KiwiFile, Glob, true, true, ParseIsoDate) == Ok(FileKey(Date(2021, 1, 1), 1, 1))
  {
    var pieces := ["2021-01-01", "1", "kiwi"];
    assert KiwiFile[..|KiwiFile| - 4] == "resp_frac_" + "2021-01-01_1_kiwi";
    assert Join(pieces, '_') == "2021-01-01_1_kiwi";
    PiecesExample(KiwiFile, "2021-01-01_1_kiwi", pieces);
    ClassifyExample("kiwi");
    ScanExample(Date(2021, 1, 1), 1, 1);
  }

  /** ... and control is panel 0. */
  lemma ControlKeyExample()
    ensures HasExtension(ControlFile)
    ensures SectionKey(ControlFile, Glob, true, true, ParseIsoDate) == Ok(FileKey(Date(2021, 1, 1), 1, 0))
  {
    var pieces := ["2021-01-01", "1", "control"];
    assert ControlFile[..|ControlFile| - 4] == "resp_frac_" + "2021-01-01_1_control";
    assert Join(pieces, '_') == "2021-01-01_1_control";
    PiecesExample(ControlFile, "2021-01-01_1_control", pieces);
    ClassifyExample("control");
    ScanExample(Date(2021, 1, 1), 1, 0);
  }

  /** Both panels of one fly pass the completeness check, in either order. */
  lemma PairExample(d: Date, n: int, a: int, b: int)
    requires (a == 0 && b == 1) || (a == 1 && b == 0)
    ensures FirstUnpaired([FileKey(d, n, a), FileKey(d, n, b)]) == None
  {
    var keys := [FileKey(d, n, a), FileKey(d, n, b)];
    assert a in PanelsOf(keys, FlyId(d, n)) by { assert FlyOf(keys[0]) == FlyId(d, n); }
    assert b in PanelsOf(keys, FlyId(d, n)) by { assert FlyOf(keys[1]) == FlyId(d, n); }
    assert PanelsOf(keys, FlyId(d, n)) == {0, 1};
    var seen := SeenPanels(keys);
    assert FlyOf(keys[0]) in seen && FlyOf(keys[1]) in seen;
    assert seen[FlyOf(keys[0])] == {0, 1} && |{0, 1}| == 2;
    assert CheckFrom(keys, seen, {0, 1}, 1) == None;
  }

  /** Two names with report-mode keys give the section those keys, in listing order. */
  lemma SectionKeysOfPair(x: string, y: string, globStr: string, parseDate: DateParser, kx: FileKey, ky: FileKey)
    requires HasExtension(x) && HasExtension(y)
    requires SectionKey(x, globStr, true, true, parseDate) == Ok(kx)
    requires SectionKey(y, globStr, true, true, parseDate) == Ok(ky)
    ensures AllHaveExtension([x, y])
    ensures KeysOf([x, y], ExcludeText(globStr), false, parseDate) == Ok([kx, ky])
  {
    var files := [x, y];
    var ex := ExcludeText(globStr);
    assert EffectiveControlLast(true, true) == false;
    assert ExtractKey(x, ex, false, parseDate) == Ok(kx);
    assert ExtractKey(y, ex, false, parseDate) == Ok(ky);
    assert files[0] == x && files[1] == y;
    KeysOfPair(files, ex, parseDate, [kx, ky]);
  }

  lemma KeysOfPair(files: seq<string>, ex: string, parseDate: DateParser, keys: seq<FileKey>)
    requires |files| == |keys| == 2 && AllHaveExtension(files)
    requires forall i :: 0 <= i < |files| ==> ExtractKey(files[i], ex, false, parseDate) == Ok(keys[i])
    ensures KeysOf(files, ex, false, parseDate) == Ok(keys)
  {
    var ks := KeysOf(files, ex, false, parseDate);
    assert ks.Ok? && |ks.value| == 2;
    assert ks.value == keys;
  }

  /**
   * A section of one fly's two files comes out kiwi first, whichever of the
   * two orders the directory listing gives.
   */
  lemma OneFlySection(c: string, k: string, globStr: string, parseDate: DateParser, d: Date, n: int)
    requires HasExtension(c) && HasExtension(k)
    requires SectionKey(c, globStr, true, true, parseDate) == Ok(FileKey(d, n, 0))
    requires SectionKey(k, globStr, true, true, parseDate) == Ok(FileKey(d, n, 1))
    ensures AllHaveExtension([c, k]) && AllHaveExtension([k, c])
    ensures PlotFilesInOrder([c, k], globStr, parseDate) == Ok([k, c])
    ensures PlotFilesInOrder([k, c], globStr, parseDate) == Ok([k, c])
  {
    SectionKeysOfPair(c, k, globStr, parseDate, FileKey(d, n, 0), FileKey(d, n, 1));
    SectionKeysOfPair(k, c, globStr, parseDate, FileKey(d, n, 1), FileKey(d, n, 0));
    ControlListedFirst(c, k, globStr, parseDate, d, n);
    KiwiListedFirst(c, k, globStr, parseDate, d, n);
  }

  /** Listed control first, the section comes out kiwi first. */
  lemma ControlListedFirst(c: string, k: string, globStr: string, parseDate: DateParser, d: Date, n: int)
    requires AllHaveExtension([c, k])
    requires KeysOf([c, k], ExcludeText(globStr), false, parseDate) == Ok([FileKey(d, n, 0), FileKey(d, n, 1)])
    ensures PlotFilesInOrder([c, k], globStr, parseDate) == Ok([k, c])
  {
    var files := [c, k];
    var keys := [FileKey(d, n, 0), FileKey(d, n, 1)];
    PairExample(d, n, 0, 1);
    PairReport(files, globStr, parseDate, keys);
    SortedPair(files, keys);
  }

  /** Listed kiwi first, the section keeps that order. */
  lemma KiwiListedFirst(c: string, k: string, globStr: string, parseDate: DateParser, d: Date, n: int)
    requires AllHaveExtension([k, c])
    requires KeysOf([k, c], ExcludeText(globStr), false, parseDate) == Ok([FileKey(d, n, 1), FileKey(d, n, 0)])
    ensures PlotFilesInOrder([k, c], globStr, parseDate) == Ok([k, c])
  {
    var files := [k, c];
    var keys := [FileKey(d, n, 1), FileKey(d, n, 0)];
    PairExample(d, n, 1, 0);
    PairReport(files, globStr, parseDate, keys);
    SortedPairSwapped(files, keys);
  }

  /** With complete keys for a section, the report is the reversed sort of the tagged files. */
  lemma PairReport(files: seq<string>, globStr: string, parseDate: DateParser, keys: seq<FileKey>)
    requires |files| > 0 && AllHaveExtension(files)
    requires KeysOf(files, ExcludeText(globStr), false, parseDate) == Ok(keys)
    requires FirstUnpaired(keys) == None
    ensures PlotFilesInOrder(files, globStr, parseDate) == Ok(Reverse(Names(Sort(Tag(files, keys)))))
  {
    assert EffectiveControlLast(true, true) == false;
  }

  /** Two entries already in key order sort to themselves; reversed, the second comes first. */
  lemma SortedPair(files: seq<string>, keys: seq<FileKey>)
    requires |files| == |keys| == 2
    requires KeyBefore(keys[0], keys[1])
    ensures Reverse(Names(Sort(Tag(files, keys)))) == [files[1], files[0]]
  {
    var tagged := Tag(files, keys);
    assert tagged == [Entry(files[0], keys[0], 0), Entry(files[1], keys[1], 1)];
    assert Ascending(tagged);
    AscendingUnique(Sort(tagged), tagged);
    assert Names(tagged) == files;
  }

  /** Two entries in reverse key order swap when sorted; reversed, they are back in listing order. */
  lemma SortedPairSwapped(files: seq<string>, keys: seq<FileKey>)
    requires |files| == |keys| == 2
    requires KeyBefore(keys[1], keys[0])
    ensures Reverse(Names(Sort(Tag(files, keys)))) == [files[0], files[1]]
  {
    var tagged := Tag(files, keys);
    assert tagged == [Entry(files[0], keys[0], 0), Entry(files[1], keys[1], 1)];
    var swapped := [tagged[1], tagged[0]];
    assert Ascending(swapped);
    assert multiset(swapped) == multiset(tagged);
    AscendingUnique(Sort(tagged), swapped);
    assert Names(swapped) == [files[1], files[0]];
  }

  /** The report order: newest first, and within a fly the kiwi panel before the control panel. */
  lemma SectionExample()
    ensures AllHaveExtension([ControlFile, KiwiFile]) && AllHaveExtension([KiwiFile, ControlFile])
    ensures PlotFilesInOrder([ControlFile, KiwiFile], Glob, ParseIsoDate) == Ok([KiwiFile, ControlFile])
    ensures PlotFilesInOrder([KiwiFile, ControlFile], Glob, ParseIsoDate) == Ok([KiwiFile, ControlFile])
  {
    KiwiKeyExample();
    ControlKeyExample();
    OneFlySection(ControlFile, KiwiFile, Glob, ParseIsoDate, Date(2021, 1, 1), 1);
  }
}
