/**
 * Ordering the figure files of one report section: every name is parsed
 * into a key, every fly must have both panels, and the files are sorted by
 * key and then, in reverse-chronological mode, reversed as a whole.
 */
module SectionOrder {
  import opened Results
  import opened Strings
  import opened FileKeys
  import opened Pairing
  import opened KeySort

  /** Why a section cannot be ordered. */
  datatype OrderError =
    | BadName(name: string, reason: KeyError)
    | Unpaired(fly: FlyId)

  /** The text all names of a section share: its glob pattern with every `*` deleted. */
  function ExcludeText(globStr: string): (r: string)
    ensures '*' !in r
    ensures forall c :: c != '*' ==> multiset(r)[c] == multiset(globStr)[c]
  {
    RemoveAllChar(globStr, '*');
    RemoveAll(globStr, "*")
  }

  /**
   * The panel order actually used for sorting. The final reversal would put
   * control before kiwi, so in reverse-chronological mode the flag is
   * flipped beforehand.
   */
  function EffectiveControlLast(reverseChronological: bool, controlLast: bool): bool
  {
    if reverseChronological then !controlLast else controlLast
  }

  predicate AllHaveExtension(files: seq<string>)
  {
    forall i :: 0 <= i < |files| ==> HasExtension(files[i])
  }

  /** The key of file `f` under a section's settings. */
  function SectionKey(f: string, globStr: string, reverseChronological: bool, controlLast: bool,
                      parseDate: DateParser): Result<FileKey, KeyError>
    requires HasExtension(f)
  {
    ExtractKey(f, ExcludeText(globStr), EffectiveControlLast(reverseChronological, controlLast), parseDate)
  }

  /** The keys of all files, in input order; the first rejected name stops the section. */
  function KeysOf(files: seq<string>, exclude: string, controlLast: bool, parseDate: DateParser)
    : (r: Result<seq<FileKey>, OrderError>)
    requires AllHaveExtension(files)
    ensures r.Ok? <==> forall i :: 0 <= i < |files| ==> ExtractKey(files[i], exclude, controlLast, parseDate).Ok?
    ensures r.Ok? ==> (
              && |r.value| == |files|
              && forall i :: 0 <= i < |files| ==> ExtractKey(files[i], exclude, controlLast, parseDate) == Ok(r.value[i]))
    ensures r.Err? ==> (
              exists i :: 0 <= i < |files|
                && (forall j :: 0 <= j < i ==> ExtractKey(files[j], exclude, controlLast, parseDate).Ok?)
                && ExtractKey(files[i], exclude, controlLast, parseDate).Err?
                && r.error == BadName(files[i], ExtractKey(files[i], exclude, controlLast, parseDate).error))
  {
    var results := seq(|files|, i requires 0 <= i < |files| => ExtractKey(files[i], exclude, controlLast, parseDate));
    assert forall i :: 0 <= i < |files| ==> results[i] == ExtractKey(files[i], exclude, controlLast, parseDate);
    FirstBadName(files, results)
  }

  /** The keys of all files given each file's parse outcome, or the first file whose parse failed. */
  function FirstBadName(files: seq<string>, results: seq<Result<FileKey, KeyError>>)
    : (r: Result<seq<FileKey>, OrderError>)
    requires |files| == |results|
    ensures r.Ok? <==> forall i :: 0 <= i < |files| ==> results[i].Ok?
    ensures r.Ok? ==> (
              && |r.value| == |files|
              && forall i :: 0 <= i < |files| ==> results[i] == Ok(r.value[i]))
    ensures r.Err? ==> (
              exists i :: 0 <= i < |files|
                && (forall j :: 0 <= j < i ==> results[j].Ok?)
                && results[i].Err?
                && r.error == BadName(files[i], results[i].error))
  {
    if |files| == 0 then Ok([])
    else
      assert forall i :: 0 <= i < |files| - 1 ==> files[1..][i] == files[i + 1] && results[1..][i] == results[i + 1];
      match results[0]
      case Err(e) => Err(BadName(files[0], e))
      case Ok(k) =>
        match FirstBadName(files[1..], results[1..])
        case Err(e) =>
          ghost var i :| 0 <= i < |files| - 1
            && (forall j :: 0 <= j < i ==> results[1..][j].Ok?)
            && results[1..][i].Err?
            && e == BadName(files[1..][i], results[1..][i].error);
          assert forall j :: 0 <= j < i + 1 ==> results[j].Ok? by {
            forall j | 0 <= j < i + 1 ensures results[j].Ok? {
              if j > 0 {
                assert results[1..][j - 1] == results[j];
              }
            }
          }
          Err(e)
        case Ok(ks) => Ok([k] + ks)
  }

  /** Each file with its key and its input position. */
  function Tag(files: seq<string>, keys: seq<FileKey>): (es: seq<Entry>)
    requires |files| == |keys|
    ensures |es| == |files|
    ensures forall i :: 0 <= i < |es| ==> es[i] == Entry(files[i], keys[i], i)
    ensures DistinctPositions(es)
  {
    seq(|files|, i requires 0 <= i < |files| => Entry(files[i], keys[i], i))
  }

  /** `s[::-1]`. */
  function Reverse<T>(s: seq<T>): (r: seq<T>)
    ensures |r| == |s|
    ensures forall i :: 0 <= i < |s| ==> r[i] == s[|s| - 1 - i]
    ensures multiset(r) == multiset(s)
  {
    if |s| == 0 then []
    else
      assert s == [s[0]] + s[1..];
      Reverse(s[1..]) + [s[0]]
  }

  /**
   * The ordered section, or the first reason it cannot be ordered. An empty
   * section is returned as it is, before any name is parsed.
   */
  function OrderFiles(files: seq<string>, globStr: string, reverseChronological: bool, controlLast: bool,
                      parseDate: DateParser): (r: Result<seq<string>, OrderError>)
    requires AllHaveExtension(files)
    ensures |files| == 0 ==> r == Ok([])
    ensures r.Ok? ==> multiset(r.value) == multiset(files)
  {
    if |files| == 0 then Ok([])
    else
      var cl := EffectiveControlLast(reverseChronological, controlLast);
      match KeysOf(files, ExcludeText(globStr), cl, parseDate)
      case Err(e) => Err(e)
      case Ok(keys) =>
        match FirstUnpaired(keys)
        case Some(f) => Err(Unpaired(f))
        case None =>
          var tagged := Tag(files, keys);
          var sorted := Names(Sort(tagged));
          SortNames(tagged);
          assert Names(tagged) == files;
          Ok(if reverseChronological then Reverse(sorted) else sorted)
  }

  /** The sorted entries of a successful ordering, before any reversal. */
  function SortedEntries(files: seq<string>, globStr: string, reverseChronological: bool, controlLast: bool,
                         parseDate: DateParser): (s: seq<Entry>)
    requires AllHaveExtension(files)
    requires OrderFiles(files, globStr, reverseChronological, controlLast, parseDate).Ok?
    requires |files| > 0
    ensures Ascending(s)
    ensures forall x :: x in s ==> (
              && HasExtension(x.name)
              && SectionKey(x.name, globStr, reverseChronological, controlLast, parseDate) == Ok(x.key))
    ensures var out := OrderFiles(files, globStr, reverseChronological, controlLast, parseDate).value;
      && |out| == |s|
      && forall i :: 0 <= i < |s| ==> out[i] == OutEntry(s, reverseChronological, i).name
  {
    var cl := EffectiveControlLast(reverseChronological, controlLast);
    var keys := KeysOf(files, ExcludeText(globStr), cl, parseDate).value;
    var tagged := Tag(files, keys);
    var s := Sort(tagged);
    SortedEntriesMatchKeys(files, keys, ExcludeText(globStr), cl, parseDate, s);
    OrderFilesValue(files, globStr, reverseChronological, controlLast, parseDate);
    var sorted := Names(s);
    var out := OrderFiles(files, globStr, reverseChronological, controlLast, parseDate).value;
    OutNames(s, reverseChronological, out);
    s
  }

  lemma OutNames(s: seq<Entry>, reverseChronological: bool, out: seq<string>)
    requires out == if reverseChronological then Reverse(Names(s)) else Names(s)
    ensures |out| == |s|
    ensures forall i :: 0 <= i < |s| ==> out[i] == OutEntry(s, reverseChronological, i).name
  {
    if reverseChronological {
      ReversedNames(s, out);
    }
  }

  lemma ReversedNames(s: seq<Entry>, out: seq<string>)
    requires out == Reverse(Names(s))
    ensures |out| == |s|
    ensures forall i :: 0 <= i < |s| ==> out[i] == s[|s| - 1 - i].name
  {
    var sorted := Names(s);
    forall i | 0 <= i < |s| ensures out[i] == s[|s| - 1 - i].name {
      assert out[i] == sorted[|s| - 1 - i];
    }
  }

  /** What a successful ordering of a non-empty section is made of. */
  lemma OrderFilesValue(files: seq<string>, globStr: string, reverseChronological: bool, controlLast: bool,
                        parseDate: DateParser)
    requires AllHaveExtension(files)
    requires OrderFiles(files, globStr, reverseChronological, controlLast, parseDate).Ok?
    requires |files| > 0
    ensures var ks := KeysOf(files, ExcludeText(globStr), EffectiveControlLast(reverseChronological, controlLast), parseDate);
      && ks.Ok?
      && var sorted := Names(Sort(Tag(files, ks.value)));
         OrderFiles(files, globStr, reverseChronological, controlLast, parseDate).value
           == if reverseChronological then Reverse(sorted) else sorted
  {
  }

  lemma SortedEntriesMatchKeys(files: seq<string>, keys: seq<FileKey>, exclude: string, controlLast: bool,
                               parseDate: DateParser, s: seq<Entry>)
    requires AllHaveExtension(files)
    requires KeysOf(files, exclude, controlLast, parseDate) == Ok(keys)
    requires multiset(s) == multiset(Tag(files, keys))
    ensures forall x :: x in s ==> (
              && HasExtension(x.name)
              && ExtractKey(x.name, exclude, controlLast, parseDate) == Ok(x.key))
  {
    TagMembers(files, keys, s);
    forall x | x in s
      ensures HasExtension(x.name) && ExtractKey(x.name, exclude, controlLast, parseDate) == Ok(x.key)
    {
      var p :| 0 <= p < |files| && x.name == files[p] && x.key == keys[p];
      assert ExtractKey(files[p], exclude, controlLast, parseDate) == Ok(keys[p]);
    }
  }

  /** A rearrangement of the tagged files pairs each file with its own key. */
  lemma TagMembers(files: seq<string>, keys: seq<FileKey>, s: seq<Entry>)
    requires |files| == |keys|
    requires multiset(s) == multiset(Tag(files, keys))
    ensures forall x :: x in s ==> exists p :: 0 <= p < |files| && x.name == files[p] && x.key == keys[p]
  {
    var tagged := Tag(files, keys);
    forall x | x in s
      ensures exists p :: 0 <= p < |files| && x.name == files[p] && x.key == keys[p]
    {
      assert x in multiset(s);
      assert x in tagged;
      var p :| 0 <= p < |tagged| && tagged[p] == x;
      assert x.name == files[p] && x.key == keys[p];
    }
  }

  /**
   * Result order: the keys never increase in reverse-chronological mode and
   * never decrease otherwise.
   */
  lemma OrderFilesSorted(files: seq<string>, globStr: string, reverseChronological: bool, controlLast: bool,
                         parseDate: DateParser)
    requires AllHaveExtension(files)
    requires OrderFiles(files, globStr, reverseChronological, controlLast, parseDate).Ok?
    ensures var out := OrderFiles(files, globStr, reverseChronological, controlLast, parseDate).value;
      && AllHaveExtension(out)
      && (forall i :: 0 <= i < |out| ==> SectionKey(out[i], globStr, reverseChronological, controlLast, parseDate).Ok?)
      && (forall i, j :: 0 <= i < j < |out| ==>
            var ki := SectionKey(out[i], globStr, reverseChronological, controlLast, parseDate).value;
            var kj := SectionKey(out[j], globStr, reverseChronological, controlLast, parseDate).value;
            if reverseChronological then !KeyBefore(ki, kj) else !KeyBefore(kj, ki))
  {
    var out := OrderFiles(files, globStr, reverseChronological, controlLast, parseDate).value;
    if |files| > 0 {
      var s := SortedEntries(files, globStr, reverseChronological, controlLast, parseDate);
      var n := |s|;
      forall i | 0 <= i < |out|
        ensures HasExtension(out[i])
        ensures SectionKey(out[i], globStr, reverseChronological, controlLast, parseDate) == Ok(OutEntry(s, reverseChronological, i).key)
      {
        assert OutEntry(s, reverseChronological, i) in s;
      }
      forall i, j | 0 <= i < j < |out|
        ensures var ki := SectionKey(out[i], globStr, reverseChronological, controlLast, parseDate).value;
          var kj := SectionKey(out[j], globStr, reverseChronological, controlLast, parseDate).value;
          if reverseChronological then !KeyBefore(ki, kj) else !KeyBefore(kj, ki)
      {
        var ei := OutEntry(s, reverseChronological, i);
        var ej := OutEntry(s, reverseChronological, j);
        if reverseChronological {
          assert EntryBefore(ej, ei);
          EntryOrder(ej, ei);
          KeyOrder(ej.key, ei.key);
        } else {
          assert EntryBefore(ei, ej);
          EntryOrder(ei, ej);
          KeyOrder(ei.key, ej.key);
        }
      }
    }
  }

  function OutEntry(s: seq<Entry>, reverseChronological: bool, i: int): Entry
    requires 0 <= i < |s|
  {
    if reverseChronological then s[|s| - 1 - i] else s[i]
  }

  /**
   * When a non-empty section is ordered and when it is rejected: the first
   * name that does not parse is reported; otherwise the section succeeds
   * exactly when every file has a partner file of the same fly with the other
   * panel, and fails naming the fly of the first file without one.
   */
  lemma OrderFilesOutcome(files: seq<string>, globStr: string, reverseChronological: bool, controlLast: bool,
                          parseDate: DateParser)
    requires AllHaveExtension(files)
    requires |files| > 0
    ensures var r := OrderFiles(files, globStr, reverseChronological, controlLast, parseDate);
      var ks := KeysOf(files, ExcludeText(globStr), EffectiveControlLast(reverseChronological, controlLast), parseDate);
      && (ks.Err? ==> r == Err(ks.error))
      && (ks.Ok? ==> BinaryPanels(ks.value))
      && (ks.Ok? ==> (r.Ok? <==> forall i :: 0 <= i < |files| ==> HasPartner(ks.value, i)))
      && (ks.Ok? && r.Err? ==>
            exists i :: 0 <= i < |files| && !HasPartner(ks.value, i) && r.error == Unpaired(FlyOf(ks.value[i]))
              && forall j :: 0 <= j < i ==> HasPartner(ks.value, j))
  {
    var cl := EffectiveControlLast(reverseChronological, controlLast);
    var ks := KeysOf(files, ExcludeText(globStr), cl, parseDate);
    if ks.Ok? {
      var keys := ks.value;
      KeysBinary(files, ExcludeText(globStr), cl, parseDate);
      FirstUnpairedCharacterized(keys);
      var r := OrderFiles(files, globStr, reverseChronological, controlLast, parseDate);
      assert r.Ok? <==> FirstUnpaired(keys).None?;
      assert r.Err? ==> r.error == Unpaired(FirstUnpaired(keys).value);
    }
  }

  /** Every accepted key names one of the two panel positions. */
  lemma KeysBinary(files: seq<string>, exclude: string, controlLast: bool, parseDate: DateParser)
    requires AllHaveExtension(files)
    requires KeysOf(files, exclude, controlLast, parseDate).Ok?
    ensures BinaryPanels(KeysOf(files, exclude, controlLast, parseDate).value)
  {
    var keys := KeysOf(files, exclude, controlLast, parseDate).value;
    forall i | 0 <= i < |keys| ensures keys[i].panel == 0 || keys[i].panel == 1 {
      assert ExtractKey(files[i], exclude, controlLast, parseDate) == Ok(keys[i]);
    }
  }

  /**
   * Within one fly the two panels come in the order `controlLast` asks for
   * (kiwi, then control, when it is set), in both chronological directions:
   * flipping the flag before the final reversal compensates for it.
   */
  lemma KiwiBeforeControl(files: seq<string>, globStr: string, reverseChronological: bool, controlLast: bool,
                          parseDate: DateParser)
    requires AllHaveExtension(files)
    requires OrderFiles(files, globStr, reverseChronological, controlLast, parseDate).Ok?
    ensures var out := OrderFiles(files, globStr, reverseChronological, controlLast, parseDate).value;
      var eff := EffectiveControlLast(reverseChronological, controlLast);
      && AllHaveExtension(out)
      && forall i, j :: 0 <= i < |out| && 0 <= j < |out| ==>
           var ki := SectionKey(out[i], globStr, reverseChronological, controlLast, parseDate);
           var kj := SectionKey(out[j], globStr, reverseChronological, controlLast, parseDate);
           (ki.Ok? && kj.Ok? && FlyOf(ki.value) == FlyOf(kj.value)
             && ki.value.panel == KiwiPanel(eff) && kj.value.panel == ControlPanel(eff))
           ==> (i < j <==> controlLast)
  {
    OrderFilesSorted(files, globStr, reverseChronological, controlLast, parseDate);
    var out := OrderFiles(files, globStr, reverseChronological, controlLast, parseDate).value;
    var eff := EffectiveControlLast(reverseChronological, controlLast);
    forall i, j | 0 <= i < |out| && 0 <= j < |out|
      ensures var ki := SectionKey(out[i], globStr, reverseChronological, controlLast, parseDate);
        var kj := SectionKey(out[j], globStr, reverseChronological, controlLast, parseDate);
        (ki.Ok? && kj.Ok? && FlyOf(ki.value) == FlyOf(kj.value)
          && ki.value.panel == KiwiPanel(eff) && kj.value.panel == ControlPanel(eff))
        ==> (i < j <==> controlLast)
    {
      var ki := SectionKey(out[i], globStr, reverseChronological, controlLast, parseDate);
      var kj := SectionKey(out[j], globStr, reverseChronological, controlLast, parseDate);
      if ki.Ok? && kj.Ok? && FlyOf(ki.value) == FlyOf(kj.value)
        && ki.value.panel == KiwiPanel(eff) && kj.value.panel == ControlPanel(eff)
      {
        assert i != j;
        if i < j {
          assert if reverseChronological then !KeyBefore(ki.value, kj.value) else !KeyBefore(kj.value, ki.value);
        } else {
          assert if reverseChronological then !KeyBefore(kj.value, ki.value) else !KeyBefore(ki.value, kj.value);
        }
      }
    }
  }

  /**
   * The section order the report uses: reverse chronological, with kiwi
   * before control. Panels are therefore numbered kiwi 1, control 0; the
   * keys never increase along the result, so no control file precedes the
   * kiwi file of its fly.
   */
  function PlotFilesInOrder(files: seq<string>, globStr: string, parseDate: DateParser)
    : (r: Result<seq<string>, OrderError>)
    requires AllHaveExtension(files)
    ensures |files| == 0 ==> r == Ok([])
    ensures r.Ok? ==> multiset(r.value) == multiset(files)
    ensures r.Ok? ==> ReportOrder(r.value, ExcludeText(globStr), parseDate)
  {
    var r := OrderFiles(files, globStr, true, true, parseDate);
    if r.Ok? then
      PlotFilesOrdered(files, globStr, parseDate);
      r
    else r
  }

  /** Keys never increase, and a control file never precedes a kiwi file of the same fly. */
  predicate ReportOrder(out: seq<string>, exclude: string, parseDate: DateParser)
  {
    && AllHaveExtension(out)
    && forall i, j :: 0 <= i < j < |out| ==>
         var ki := ExtractKey(out[i], exclude, false, parseDate);
         var kj := ExtractKey(out[j], exclude, false, parseDate);
         && ki.Ok? && kj.Ok?
         && !KeyBefore(ki.value, kj.value)
         && !(FlyOf(ki.value) == FlyOf(kj.value)
              && ki.value.panel == ControlPanel(false) && kj.value.panel == KiwiPanel(false))
  }

  lemma PlotFilesOrdered(files: seq<string>, globStr: string, parseDate: DateParser)
    requires AllHaveExtension(files)
    requires OrderFiles(files, globStr, true, true, parseDate).Ok?
    ensures ReportOrder(OrderFiles(files, globStr, true, true, parseDate).value, ExcludeText(globStr), parseDate)
  {
    OrderFilesSorted(files, globStr, true, true, parseDate);
    KiwiBeforeControl(files, globStr, true, true, parseDate);
    assert EffectiveControlLast(true, true) == false;
  }
}
