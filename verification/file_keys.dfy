/**
 * The file-name grammar of a figure file: `<stem>.<ext>` with a
 * three-character extension, the section's exclude text deleted from the
 * stem, the rest split on `_`, and each token classified as a panel literal,
 * a fly number, a date, or nothing. The result is the sort key
 * (date, fly, panel) or the first grammar error.
 */
module FileKeys {
  import opened Results
  import opened Strings

  /** A calendar date as the date parser produces it. */
  datatype Date = Date(year: int, month: int, day: int)

  /** Chronological order on dates: year, then month, then day. */
  predicate DateBefore(a: Date, b: Date)
  {
    || a.year < b.year
    || (a.year == b.year && a.month < b.month)
    || (a.year == b.year && a.month == b.month && a.day < b.day)
  }

  /** The sort key of one figure file. */
  datatype FileKey = FileKey(date: Date, fly: int, panel: int)

  /** Tuple order on keys: date, then fly number, then panel position. */
  predicate KeyBefore(a: FileKey, b: FileKey)
  {
    || DateBefore(a.date, b.date)
    || (a.date == b.date && a.fly < b.fly)
    || (a.date == b.date && a.fly == b.fly && a.panel < b.panel)
  }

  /** Why a file name does not follow the grammar. */
  datatype KeyError =
    | DuplicatePanel
    | DuplicateFly
    | DuplicateDate
    | MissingDate
    | MissingFly
    | MissingPanel

  /** Recognises a date token; the project-wide date format is not part of this model. */
  type DateParser = string -> Option<Date>

  const KiwiToken: string := "kiwi"
  const ControlToken: string := "control"

  /** Panel position of a `kiwi` token: first when control goes last. */
  function KiwiPanel(controlLast: bool): int
  {
    if controlLast then 0 else 1
  }

  /** Panel position of a `control` token: last when control goes last. */
  function ControlPanel(controlLast: bool): int
  {
    if controlLast then 1 else 0
  }

  /** A file name has the three-character extension the slicing assumes. */
  predicate HasExtension(fname: string)
  {
    |fname| >= 4 && fname[|fname| - 4] == '.'
  }

  // ---------------------------------------------------------------------------
  // Tokens
  // ---------------------------------------------------------------------------

  /** What one `_`-separated token contributes, decided in the source's order of trial. */
  datatype Token =
    | Panel(position: int)
      /** An integer with a leading `0` and a nonzero value: it clears any fly
          number found so far and is then tried as a date. */
    | ZeroPadded(asDate: Option<Date>)
    | Fly(num: int)
    | DateToken(date: Date)
    | Ignored

  /** Panel literal first, then integer, then date; anything else is ignored. */
  function Classify(t: string, controlLast: bool, parseDate: DateParser): (tok: Token)
    ensures tok.Panel? <==> t == KiwiToken || t == ControlToken
    ensures tok.Fly? ==> ParseInt(t) == Some(tok.num) && (tok.num == 0 || t[0] != '0')
  {
    if t == KiwiToken then Panel(KiwiPanel(controlLast))
    else if t == ControlToken then Panel(ControlPanel(controlLast))
    else match ParseInt(t)
      case Some(n) =>
        if n != 0 && t[0] == '0' then ZeroPadded(parseDate(t)) else Fly(n)
      case None =>
        match parseDate(t)
        case Some(d) => DateToken(d)
        case None => Ignored
  }

  /**
   * Every outcome of `Classify` in terms of the token text: an integer with
   * no leading `0` (or of value 0) is a fly number, a non-integer the date
   * parser accepts is a date, and a token that is neither a panel literal,
   * an integer nor a date is ignored.
   */
  lemma ClassifyCharacterized(t: string, controlLast: bool, parseDate: DateParser)
    ensures var tok := Classify(t, controlLast, parseDate);
      && (ParseInt(t).Some? && (ParseInt(t).value == 0 || t[0] != '0') ==> tok == Fly(ParseInt(t).value))
      && (tok.DateToken? <==> !tok.Panel? && ParseInt(t).None? && parseDate(t).Some?)
      && (tok.Ignored? <==> t != KiwiToken && t != ControlToken && ParseInt(t).None? && parseDate(t).None?)
  {
  }

  function ClassifyAll(ts: seq<string>, controlLast: bool, parseDate: DateParser): (toks: seq<Token>)
    ensures |toks| == |ts|
    ensures forall i :: 0 <= i < |ts| ==> toks[i] == Classify(ts[i], controlLast, parseDate)
  {
    seq(|ts|, i requires 0 <= i < |ts| => Classify(ts[i], controlLast, parseDate))
  }

  /** The tokens of a file name: extension dropped, exclude text deleted, split on `_`. */
  function Tokens(fname: string, exclude: string): (ts: seq<string>)
    requires HasExtension(fname)
    ensures |ts| >= 1
    ensures forall i :: 0 <= i < |ts| ==> '_' !in ts[i]
    ensures Join(ts, '_') == RemoveAll(fname[..|fname| - 4], exclude)
  {
    JoinSplit(RemoveAll(fname[..|fname| - 4], exclude), '_');
    Split(RemoveAll(fname[..|fname| - 4], exclude), '_')
  }

  // ---------------------------------------------------------------------------
  // The scan over tokens
  // ---------------------------------------------------------------------------

  /** The parts found so far. */
  datatype Parts = Parts(date: Option<Date>, fly: Option<int>, panel: Option<int>)

  function TakeDate(acc: Parts, od: Option<Date>): Result<Parts, KeyError>
  {
    match od
    case None => Ok(acc)
    case Some(d) => if acc.date.Some? then Err(DuplicateDate) else Ok(acc.(date := Some(d)))
  }

  /** One token of the loop over the parts. */
  function Step(acc: Parts, tok: Token): Result<Parts, KeyError>
  {
    match tok
    case Panel(p) =>
      if acc.panel.Some? then Err(DuplicatePanel) else Ok(acc.(panel := Some(p)))
    case ZeroPadded(od) => TakeDate(acc.(fly := None), od)
    case Fly(n) =>
      if acc.fly.Some? then Err(DuplicateFly) else Ok(acc.(fly := Some(n)))
    case DateToken(d) => TakeDate(acc, Some(d))
    case Ignored => Ok(acc)
  }

  /** The loop over all tokens, left to right, stopping at the first error. */
  function Scan(toks: seq<Token>): Result<Parts, KeyError>
  {
    if |toks| == 0 then Ok(Parts(None, None, None))
    else
      match Scan(toks[..|toks| - 1])
      case Err(e) => Err(e)
      case Ok(acc) => Step(acc, toks[|toks| - 1])
  }

  /** The checks after the loop, in the order date, fly, panel. */
  function Finish(p: Parts): Result<FileKey, KeyError>
  {
    if p.date.None? then Err(MissingDate)
    else if p.fly.None? then Err(MissingFly)
    else if p.panel.None? then Err(MissingPanel)
    else Ok(FileKey(p.date.value, p.fly.value, p.panel.value))
  }

  function KeyOfTokens(toks: seq<Token>): Result<FileKey, KeyError>
  {
    match Scan(toks)
    case Err(e) => Err(e)
    case Ok(p) => Finish(p)
  }

  /** The key of a figure file, or the first reason its name is rejected. */
  function ExtractKey(fname: string, exclude: string, controlLast: bool, parseDate: DateParser)
    : (r: Result<FileKey, KeyError>)
    requires HasExtension(fname)
    ensures r.Ok? ==> r.value.panel == KiwiPanel(controlLast) || r.value.panel == ControlPanel(controlLast)
    ensures r.Ok? ==> (r.value.panel == KiwiPanel(controlLast) <==> KiwiToken in Tokens(fname, exclude))
    ensures r.Ok? ==> (r.value.panel == ControlPanel(controlLast) <==> ControlToken in Tokens(fname, exclude))
  {
    var ts := Tokens(fname, exclude);
    var toks := ClassifyAll(ts, controlLast, parseDate);
    KeyOfTokensCharacterized(toks);
    if KeyOfTokens(toks).Ok? then
      PanelMatchesToken(ts, controlLast, parseDate);
      KeyOfTokens(toks)
    else
      KeyOfTokens(toks)
  }

  /**
   * When a name carries exactly one panel literal, the panel left standing is
   * the kiwi position exactly when that literal is `kiwi`, and the control
   * position exactly when it is `control`.
   */
  lemma PanelMatchesToken(ts: seq<string>, controlLast: bool, parseDate: DateParser)
    requires PanelCount(ClassifyAll(ts, controlLast, parseDate)) == 1
    ensures var lp := LastPanel(ClassifyAll(ts, controlLast, parseDate));
      && lp.Some?
      && (lp.value == KiwiPanel(controlLast) || lp.value == ControlPanel(controlLast))
      && (lp.value == KiwiPanel(controlLast) <==> KiwiToken in ts)
      && (lp.value == ControlPanel(controlLast) <==> ControlToken in ts)
  {
    var toks := ClassifyAll(ts, controlLast, parseDate);
    LastPanelCount(toks);
    LastPanelFrom(toks);
    var p := LastPanel(toks).value;
    var i :| 0 <= i < |toks| && toks[i] == Panel(p);
    assert ts[i] == KiwiToken || ts[i] == ControlToken;
    assert p == KiwiPanel(controlLast) || p == ControlPanel(controlLast);
    if KiwiToken in ts {
      var k :| 0 <= k < |ts| && ts[k] == KiwiToken;
      SinglePanel(toks, k);
    }
    if ControlToken in ts {
      var k :| 0 <= k < |ts| && ts[k] == ControlToken;
      SinglePanel(toks, k);
    }
  }

  /** With a single panel token, the panel left standing is that token's position. */
  lemma {:induction false} SinglePanel(toks: seq<Token>, k: int)
    requires 0 <= k < |toks| && toks[k].Panel?
    requires PanelCount(toks) <= 1
    ensures LastPanel(toks) == Some(toks[k].position)
  {
    if k < |toks| - 1 {
      var pre := toks[..|toks| - 1];
      assert pre[k] == toks[k];
      SinglePanel(pre, k);
      LastPanelCount(pre);
    }
  }

  // ---------------------------------------------------------------------------
  // A declarative account of the scan
  // ---------------------------------------------------------------------------

  /** The date a token carries, if it is taken as a date. */
  function DateOf(tok: Token): Option<Date>
  {
    match tok
    case DateToken(d) => Some(d)
    case ZeroPadded(od) => od
    case _ => None
  }

  /** A token that parses as an integer, accepted as a fly number or not. */
  predicate IntLike(tok: Token)
  {
    tok.Fly? || tok.ZeroPadded?
  }

  function PanelCount(toks: seq<Token>): nat
  {
    if |toks| == 0 then 0
    else PanelCount(toks[..|toks| - 1]) + (if toks[|toks| - 1].Panel? then 1 else 0)
  }

  function DateCount(toks: seq<Token>): nat
  {
    if |toks| == 0 then 0
    else DateCount(toks[..|toks| - 1]) + (if DateOf(toks[|toks| - 1]).Some? then 1 else 0)
  }

  /** The position of the last panel token, if any. */
  function LastPanel(toks: seq<Token>): Option<int>
  {
    if |toks| == 0 then None
    else if toks[|toks| - 1].Panel? then Some(toks[|toks| - 1].position)
    else LastPanel(toks[..|toks| - 1])
  }

  /** The date of the last date-carrying token, if any. */
  function LastDate(toks: seq<Token>): Option<Date>
  {
    if |toks| == 0 then None
    else if DateOf(toks[|toks| - 1]).Some? then DateOf(toks[|toks| - 1])
    else LastDate(toks[..|toks| - 1])
  }

  /** The fly number left standing: the last integer-looking token decides. */
  function FlyLeft(toks: seq<Token>): Option<int>
  {
    if |toks| == 0 then None
    else match toks[|toks| - 1]
      case Fly(n) => Some(n)
      case ZeroPadded(_) => None
      case _ => FlyLeft(toks[..|toks| - 1])
  }

  predicate NoIntLikeBetween(toks: seq<Token>, i: int, j: int)
    requires 0 <= i < j <= |toks|
  {
    forall k :: i < k < j ==> !IntLike(toks[k])
  }

  /** Two accepted fly numbers with no integer-looking token between them. */
  predicate FlyRepeated(toks: seq<Token>)
  {
    exists i, j :: 0 <= i < j < |toks| && toks[i].Fly? && toks[j].Fly? && NoIntLikeBetween(toks, i, j)
  }

  predicate NoDuplicates(toks: seq<Token>)
  {
    PanelCount(toks) <= 1 && DateCount(toks) <= 1 && !FlyRepeated(toks)
  }

  /** `toks` shows the duplication that error `e` reports. */
  predicate Duplicated(toks: seq<Token>, e: KeyError)
  {
    || (e == DuplicatePanel && PanelCount(toks) >= 2)
    || (e == DuplicateDate && DateCount(toks) >= 2)
    || (e == DuplicateFly && FlyRepeated(toks))
  }

  lemma {:induction false} LastPanelCount(toks: seq<Token>)
    ensures LastPanel(toks).Some? <==> PanelCount(toks) > 0
  {
    if |toks| > 0 {
      LastPanelCount(toks[..|toks| - 1]);
    }
  }

  lemma {:induction false} LastDateCount(toks: seq<Token>)
    ensures LastDate(toks).Some? <==> DateCount(toks) > 0
  {
    if |toks| > 0 {
      LastDateCount(toks[..|toks| - 1]);
    }
  }

  /** A fly number is left standing exactly when the last integer-looking token was accepted. */
  lemma {:induction false} FlyLeftWitness(toks: seq<Token>)
    ensures FlyLeft(toks).Some? ==>
      exists i :: 0 <= i < |toks| && toks[i].Fly? && NoIntLikeBetween(toks, i, |toks|)
    ensures forall i :: 0 <= i < |toks| && toks[i].Fly? && NoIntLikeBetween(toks, i, |toks|) ==>
      FlyLeft(toks) == Some(toks[i].num)
  {
    if |toks| > 0 {
      var pre := toks[..|toks| - 1];
      var t := toks[|toks| - 1];
      FlyLeftWitness(pre);
      if FlyLeft(toks).Some? && !t.Fly? {
        var i :| 0 <= i < |pre| && pre[i].Fly? && NoIntLikeBetween(pre, i, |pre|);
        assert toks[i] == pre[i];
        assert NoIntLikeBetween(toks, i, |toks|);
      }
      forall i | 0 <= i < |toks| && toks[i].Fly? && NoIntLikeBetween(toks, i, |toks|)
        ensures FlyLeft(toks) == Some(toks[i].num)
      {
        if i < |pre| {
          assert !IntLike(t);
          assert pre[i] == toks[i];
          assert NoIntLikeBetween(pre, i, |pre|);
        }
      }
    }
  }

  /** Appending one token creates a fly duplication only by an accepted integer after an accepted one. */
  lemma FlyRepeatedSnoc(pre: seq<Token>, t: Token)
    ensures FlyRepeated(pre + [t]) <==> FlyRepeated(pre) || (t.Fly? && FlyLeft(pre).Some?)
  {
    var toks := pre + [t];
    assert toks[..|pre|] == pre;
    FlyLeftWitness(pre);
    if FlyRepeated(pre) {
      var i, j :| 0 <= i < j < |pre| && pre[i].Fly? && pre[j].Fly? && NoIntLikeBetween(pre, i, j);
      assert toks[i] == pre[i] && toks[j] == pre[j];
      assert NoIntLikeBetween(toks, i, j);
    }
    if t.Fly? && FlyLeft(pre).Some? {
      var i :| 0 <= i < |pre| && pre[i].Fly? && NoIntLikeBetween(pre, i, |pre|);
      assert toks[i] == pre[i];
      assert NoIntLikeBetween(toks, i, |pre|);
    }
    if FlyRepeated(toks) {
      var i, j :| 0 <= i < j < |toks| && toks[i].Fly? && toks[j].Fly? && NoIntLikeBetween(toks, i, j);
      if j < |pre| {
        assert pre[i] == toks[i] && pre[j] == toks[j];
        assert NoIntLikeBetween(pre, i, j);
      } else {
        assert pre[i] == toks[i];
        assert NoIntLikeBetween(pre, i, |pre|);
      }
    }
  }

  /**
   * The loop succeeds exactly when no part is duplicated; it then holds the
   * single date, the fly number left standing and the single panel. When it
   * fails, the error names the duplication that the shortest failing prefix
   * of the tokens shows.
   */
  lemma {:induction false} ScanCharacterized(toks: seq<Token>)
    ensures Scan(toks).Ok? <==> NoDuplicates(toks)
    ensures Scan(toks).Ok? ==> Scan(toks).value == Parts(LastDate(toks), FlyLeft(toks), LastPanel(toks))
    ensures Scan(toks).Err? ==> Duplicated(toks, Scan(toks).error)
    ensures Scan(toks).Err? ==>
      exists j :: 0 <= j < |toks| && NoDuplicates(toks[..j]) && Duplicated(toks[..j + 1], Scan(toks).error)
  {
    if |toks| == 0 {
      assert !FlyRepeated(toks);
    } else {
      var pre := toks[..|toks| - 1];
      var t := toks[|toks| - 1];
      assert toks == pre + [t];
      ScanCharacterized(pre);
      if Scan(pre).Ok? {
        ScanSnocOk(pre, t);
      } else {
        ScanSnocErr(pre, t);
      }
    }
  }

  /** The inductive step of `ScanCharacterized` when the scan of the prefix succeeded. */
  lemma ScanSnocOk(pre: seq<Token>, t: Token)
    requires Scan(pre).Ok? && NoDuplicates(pre)
    requires Scan(pre).value == Parts(LastDate(pre), FlyLeft(pre), LastPanel(pre))
    ensures var toks := pre + [t];
      && (Scan(toks).Ok? <==> NoDuplicates(toks))
      && (Scan(toks).Ok? ==> Scan(toks).value == Parts(LastDate(toks), FlyLeft(toks), LastPanel(toks)))
      && (Scan(toks).Err? ==> Duplicated(toks, Scan(toks).error))
      && (Scan(toks).Err? ==>
            exists j :: 0 <= j < |toks| && NoDuplicates(toks[..j]) && Duplicated(toks[..j + 1], Scan(toks).error))
  {
    var toks := pre + [t];
    assert toks[..|toks| - 1] == pre;
    FlyRepeatedSnoc(pre, t);
    LastPanelCount(pre);
    LastDateCount(pre);
    assert Scan(toks) == Step(Scan(pre).value, t);
    assert toks[..|pre|] == pre && toks[..|pre| + 1] == toks;
  }

  /** The inductive step of `ScanCharacterized` when the scan of the prefix already failed. */
  lemma ScanSnocErr(pre: seq<Token>, t: Token)
    requires Scan(pre).Err? && !NoDuplicates(pre) && Duplicated(pre, Scan(pre).error)
    requires exists j :: 0 <= j < |pre| && NoDuplicates(pre[..j]) && Duplicated(pre[..j + 1], Scan(pre).error)
    ensures var toks := pre + [t];
      && Scan(toks) == Scan(pre)
      && !NoDuplicates(toks)
      && Duplicated(toks, Scan(toks).error)
      && exists j :: 0 <= j < |toks| && NoDuplicates(toks[..j]) && Duplicated(toks[..j + 1], Scan(toks).error)
  {
    var toks := pre + [t];
    var e := Scan(pre).error;
    assert toks[..|toks| - 1] == pre;
    FlyRepeatedSnoc(pre, t);
    var j :| 0 <= j < |pre| && NoDuplicates(pre[..j]) && Duplicated(pre[..j + 1], e);
    assert pre[..j] == toks[..j] && pre[..j + 1] == toks[..j + 1];
  }

  /**
   * A file key is produced exactly when every part occurs once (for the fly
   * number: the last integer-looking token is an accepted one) and no fly
   * number repeats; otherwise a missing part is reported in the order date,
   * fly, panel.
   */
  lemma KeyOfTokensCharacterized(toks: seq<Token>)
    ensures var r := KeyOfTokens(toks);
      && (r.Ok? <==> NoDuplicates(toks) && DateCount(toks) == 1 && FlyLeft(toks).Some? && PanelCount(toks) == 1)
      && (r.Ok? ==>
            && LastDate(toks).Some? && FlyLeft(toks).Some? && LastPanel(toks).Some?
            && r.value == FileKey(LastDate(toks).value, FlyLeft(toks).value, LastPanel(toks).value))
      && (r == Err(MissingDate) <==> NoDuplicates(toks) && DateCount(toks) == 0)
      && (r == Err(MissingFly) <==> NoDuplicates(toks) && DateCount(toks) == 1 && FlyLeft(toks).None?)
      && (r == Err(MissingPanel) <==>
            NoDuplicates(toks) && DateCount(toks) == 1 && FlyLeft(toks).Some? && PanelCount(toks) == 0)
      && (r.Err? && !NoDuplicates(toks) ==> Duplicated(toks, r.error))
  {
    ScanCharacterized(toks);
    LastPanelCount(toks);
    LastDateCount(toks);
  }

  /** The panel left standing is the position of one of the panel tokens. */
  lemma {:induction false} LastPanelFrom(toks: seq<Token>)
    ensures LastPanel(toks).Some? ==>
      exists i :: 0 <= i < |toks| && toks[i] == Panel(LastPanel(toks).value)
  {
    if |toks| > 0 && !toks[|toks| - 1].Panel? {
      var pre := toks[..|toks| - 1];
      LastPanelFrom(pre);
      if LastPanel(pre).Some? {
        var i :| 0 <= i < |pre| && pre[i] == Panel(LastPanel(pre).value);
        assert toks[i] == pre[i];
      }
    }
  }

  // ---------------------------------------------------------------------------
  // Properties of the grammar
  // ---------------------------------------------------------------------------

  /** `kiwi` and `control` take the two opposite panel positions that `controlLast` selects. */
  lemma PanelTokenPositions(controlLast: bool, parseDate: DateParser)
    ensures Classify(KiwiToken, controlLast, parseDate) == Panel(KiwiPanel(controlLast))
    ensures Classify(ControlToken, controlLast, parseDate) == Panel(ControlPanel(controlLast))
    ensures {KiwiPanel(controlLast), ControlPanel(controlLast)} == {0, 1}
  {
  }

  /** The canonical decimal text of a natural number is accepted as that fly number. */
  lemma CanonicalFlyToken(n: nat, controlLast: bool, parseDate: DateParser)
    ensures Classify(ShowNat(n), controlLast, parseDate) == Fly(n)
  {
    ParseShowNat(n);
    var s := ShowNat(n);
    assert s != KiwiToken by { assert IsDigit(s[0]); }
    assert s != ControlToken by { assert IsDigit(s[0]); }
  }

  /** A signed token such as `+07` or `-07` is accepted as a fly number: only a leading `0` is refused. */
  lemma SignedTokenIsFly(t: string, n: int, controlLast: bool, parseDate: DateParser)
    requires |t| > 0 && (t[0] == '+' || t[0] == '-')
    requires ParseInt(t) == Some(n)
    ensures Classify(t, controlLast, parseDate) == Fly(n)
  {
    assert t != KiwiToken && t != ControlToken by { assert t[0] != 'k' && t[0] != 'c'; }
    ClassifyCharacterized(t, controlLast, parseDate);
  }

  /** `0`, `00`, ... are all accepted as fly number 0. */
  lemma ZerosAreFlyZero(z: string, controlLast: bool, parseDate: DateParser)
    requires |z| >= 1
    requires forall i :: 0 <= i < |z| ==> z[i] == '0'
    ensures Classify(z, controlLast, parseDate) == Fly(0)
  {
    ZerosAreZero(z);
    assert z != KiwiToken by { assert z[0] == '0'; }
    assert z != ControlToken by { assert z[0] == '0'; }
  }

  /**
   * A nonzero integer token written with a leading `0`, such as `07`, `007`
   * or `0012`, is never a fly number: it is only tried as a date.
   */
  lemma ZeroPaddedIsNotFly(t: string, n: int, controlLast: bool, parseDate: DateParser)
    requires ParseInt(t) == Some(n) && n != 0
    requires |t| > 0 && t[0] == '0'
    ensures Classify(t, controlLast, parseDate) == ZeroPadded(parseDate(t))
  {
    assert t != KiwiToken && t != ControlToken by { assert t[0] == '0'; }
  }

  /** In particular the canonical text of a positive number with one `0` in front. */
  lemma OneZeroPaddedIsNotFly(n: nat, controlLast: bool, parseDate: DateParser)
    requires n > 0
    ensures Classify("0" + ShowNat(n), controlLast, parseDate) == ZeroPadded(parseDate("0" + ShowNat(n)))
  {
    var s := ShowNat(n);
    var t := "0" + s;
    DigitsShowNat(n);
    LeadingZeroValue(s);
    assert t[1..] == s;
    assert AllDigits(t);
    assert ParseInt(t) == Some(n);
    ZeroPaddedIsNotFly(t, n, controlLast, parseDate);
  }

  lemma {:induction false} LeadingZeroValue(ds: string)
    requires AllDigits(ds)
    ensures AllDigits("0" + ds) && DigitsValue("0" + ds) == DigitsValue(ds)
  {
    var t := "0" + ds;
    if |ds| > 0 {
      LeadingZeroValue(ds[..|ds| - 1]);
      assert t[..|t| - 1] == "0" + ds[..|ds| - 1];
    } else {
      assert t[..0] == "";
    }
  }

  /** A zero-padded integer clears the fly number found before it, so no key can result. */
  lemma ZeroPaddedClearsFly(pre: seq<Token>, od: Option<Date>, post: seq<Token>)
    requires forall k :: 0 <= k < |post| ==> !IntLike(post[k])
    ensures !KeyOfTokens(pre + [ZeroPadded(od)] + post).Ok?
  {
    var toks := pre + [ZeroPadded(od)] + post;
    KeyOfTokensCharacterized(toks);
    assert toks[|pre|] == ZeroPadded(od);
    FlyLeftWitness(toks);
  }

  /** Once the scan has failed, later tokens no longer matter. */
  lemma {:induction false} ScanErrorSticks(toks: seq<Token>, j: nat)
    requires j <= |toks|
    requires Scan(toks[..j]).Err?
    ensures Scan(toks) == Scan(toks[..j])
    decreases |toks| - j
  {
    if j < |toks| {
      assert toks[..j + 1][..j] == toks[..j];
      ScanErrorSticks(toks, j + 1);
    } else {
      assert toks[..j] == toks;
    }
  }

  /**
   * The error reported is decided by the first token that duplicates a part:
   * a second panel literal, a second accepted fly number (with no
   * zero-padded number between), or a second date.
   */
  lemma FirstDuplicationDecides(toks: seq<Token>, j: nat, e: KeyError)
    requires j < |toks|
    requires NoDuplicates(toks[..j])
    requires Duplicated(toks[..j + 1], e)
    ensures KeyOfTokens(toks) == Err(e)
  {
    var pre := toks[..j];
    var t := toks[j];
    assert toks[..j + 1] == pre + [t];
    assert (pre + [t])[..|pre|] == pre;
    ScanCharacterized(pre);
    ScanCharacterized(pre + [t]);
    FlyRepeatedSnoc(pre, t);
    var e' := Scan(pre + [t]).error;
    assert Duplicated(pre + [t], e');
    assert e' == e;
    ScanErrorSticks(toks, j + 1);
  }

  /** A token that matches no rule can be dropped without changing the outcome. */
  lemma IgnoredTokenIrrelevant(a: seq<Token>, b: seq<Token>)
    ensures KeyOfTokens(a + [Ignored] + b) == KeyOfTokens(a + b)
  {
    ScanSkipsIgnored(a, b);
  }

  lemma {:induction false} ScanSkipsIgnored(a: seq<Token>, b: seq<Token>)
    ensures Scan(a + [Ignored] + b) == Scan(a + b)
    decreases |b|
  {
    if |b| == 0 {
      assert a + [Ignored] + b == a + [Ignored];
      assert (a + [Ignored])[..|a|] == a;
      assert a + b == a;
    } else {
      var b' := b[..|b| - 1];
      ScanSkipsIgnored(a, b');
      assert (a + [Ignored] + b)[..|a + [Ignored] + b| - 1] == a + [Ignored] + b';
      assert (a + b)[..|a + b| - 1] == a + b';
    }
  }

  /** The fly number of a key always comes from a token read as that integer, never a zero-padded one. */
  lemma FlyFromAcceptedToken(fname: string, exclude: string, controlLast: bool, parseDate: DateParser)
    requires HasExtension(fname)
    requires ExtractKey(fname, exclude, controlLast, parseDate).Ok?
    ensures var k := ExtractKey(fname, exclude, controlLast, parseDate).value;
      exists t :: t in Tokens(fname, exclude) && ParseInt(t) == Some(k.fly) && (k.fly == 0 || t[0] != '0')
  {
    var ts := Tokens(fname, exclude);
    var toks := ClassifyAll(ts, controlLast, parseDate);
    KeyOfTokensCharacterized(toks);
    FlyLeftWitness(toks);
    var i :| 0 <= i < |toks| && toks[i].Fly? && NoIntLikeBetween(toks, i, |toks|);
    assert ts[i] in ts;
  }
}
