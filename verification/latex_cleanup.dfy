/**
 * Collapsing runs of empty lines in generated LaTeX. The text is handled as
 * the sequence of its lines; turning the string into lines and back is the
 * boundary of this model.
 */
module LatexCleanup {
  import opened Results

  /** No two neighbouring lines are both empty. */
  predicate NoAdjacentEmpty(lines: seq<string>)
  {
    forall i :: 0 <= i < |lines| - 1 ==> !(lines[i] == "" && lines[i + 1] == "")
  }

  /** `a` can be obtained from `b` by deleting lines, keeping the order. */
  predicate IsSubsequence(a: seq<string>, b: seq<string>)
    decreases |b|
  {
    |a| == 0 ||
    (|b| > 0 && ((a[0] == b[0] && IsSubsequence(a[1..], b[1..])) || IsSubsequence(a, b[1..])))
  }

  /** The non-empty lines, in order. */
  function NonEmptyLines(lines: seq<string>): seq<string>
  {
    if |lines| == 0 then []
    else (if lines[0] == "" then [] else [lines[0]]) + NonEmptyLines(lines[1..])
  }

  /**
   * A line is dropped exactly when it and the line after it are both empty;
   * the last line is always kept.
   */
  function Collapse(lines: seq<string>): (r: seq<string>)
    requires |lines| > 0
    ensures |r| > 0
    ensures r[|r| - 1] == lines[|lines| - 1]
    ensures (r[0] == "") <==> (lines[0] == "")
    decreases |lines|
  {
    if |lines| == 1 then lines
    else (if lines[0] == "" && lines[1] == "" then [] else [lines[0]]) + Collapse(lines[1..])
  }

  /** The cleaned text never has two empty lines in a row. */
  lemma {:induction false} CollapseNoAdjacentEmpty(lines: seq<string>)
    requires |lines| > 0
    ensures NoAdjacentEmpty(Collapse(lines))
    decreases |lines|
  {
    if |lines| > 1 {
      var rest := Collapse(lines[1..]);
      CollapseNoAdjacentEmpty(lines[1..]);
      if !(lines[0] == "" && lines[1] == "") {
        var r := [lines[0]] + rest;
        assert Collapse(lines) == r;
        forall i | 0 <= i < |r| - 1
          ensures !(r[i] == "" && r[i + 1] == "")
        {
          if i > 0 {
            assert r[i] == rest[i - 1] && r[i + 1] == rest[i];
          }
        }
      }
    }
  }

  /**
   * The cleaning pass: walk every (line, next line) pair, keep the first
   * unless both are empty, then append the last line. With no lines at all
   * the source fails on `lines[-1]`; that failure is `None`.
   */
  method CleanGeneratedLatex(lines: seq<string>) returns (r: Option<seq<string>>)
    ensures r.None? <==> |lines| == 0
    ensures r.Some? ==> r.value == Collapse(lines)
  {
    if |lines| == 0 {
      return None;
    }
    var cleaned: seq<string> := [];
    var i := 0;
    assert lines[0..] == lines;
    while i < |lines| - 1
      invariant 0 <= i <= |lines| - 1
      invariant cleaned + Collapse(lines[i..]) == Collapse(lines)
    {
      CollapseStep(lines, i);
      ghost var rest := Collapse(lines[i + 1..]);
      if !(lines[i] == "" && lines[i + 1] == "") {
        AppendOne(cleaned, lines[i], rest);
        cleaned := cleaned + [lines[i]];
      } else {
        assert Collapse(lines[i..]) == rest;
      }
      i := i + 1;
    }
    assert lines[i..] == [lines[|lines| - 1]];
    assert Collapse(lines[i..]) == [lines[|lines| - 1]];
    cleaned := cleaned + [lines[|lines| - 1]];
    return Some(cleaned);
  }

  /** One step of the pass: the pair starting at line `i` decides whether line `i` stays. */
  lemma CollapseStep(lines: seq<string>, i: nat)
    requires i < |lines| - 1
    ensures Collapse(lines[i..])
      == (if lines[i] == "" && lines[i + 1] == "" then [] else [lines[i]]) + Collapse(lines[i + 1..])
  {
    assert lines[i..][1..] == lines[i + 1..];
  }

  lemma AppendOne(a: seq<string>, x: string, b: seq<string>)
    ensures (a + [x]) + b == a + ([x] + b)
  {
  }

  /** The output keeps input lines in their original order. */
  lemma {:induction false} CollapseIsSubsequence(lines: seq<string>)
    requires |lines| > 0
    ensures IsSubsequence(Collapse(lines), lines)
    decreases |lines|
  {
    if |lines| == 1 {
      assert IsSubsequence(lines[1..], lines[1..]);
    } else {
      var rest := Collapse(lines[1..]);
      CollapseIsSubsequence(lines[1..]);
      if lines[0] == "" && lines[1] == "" {
        assert Collapse(lines) == rest;
      } else {
        assert Collapse(lines) == [lines[0]] + rest;
        assert ([lines[0]] + rest)[1..] == rest;
      }
    }
  }

  /** Every non-empty line survives, and nothing else but empty lines is lost. */
  lemma {:induction false} CollapseKeepsNonEmpty(lines: seq<string>)
    requires |lines| > 0
    ensures NonEmptyLines(Collapse(lines)) == NonEmptyLines(lines)
    decreases |lines|
  {
    if |lines| > 1 {
      var rest := Collapse(lines[1..]);
      CollapseKeepsNonEmpty(lines[1..]);
      assert NonEmptyLines(lines) == (if lines[0] == "" then [] else [lines[0]]) + NonEmptyLines(lines[1..]);
      if !(lines[0] == "" && lines[1] == "") {
        var kept := [lines[0]] + rest;
        assert kept[0] == lines[0] && kept[1..] == rest;
        assert NonEmptyLines(kept) == (if lines[0] == "" then [] else [lines[0]]) + NonEmptyLines(rest);
      } else {
        assert Collapse(lines) == rest;
      }
    }
  }

  /** Dropping the first line keeps a text free of doubled empty lines. */
  lemma NoAdjacentEmptyTail(lines: seq<string>)
    requires |lines| > 0
    requires NoAdjacentEmpty(lines)
    ensures NoAdjacentEmpty(lines[1..])
  {
    forall i | 0 <= i < |lines[1..]| - 1
      ensures !(lines[1..][i] == "" && lines[1..][i + 1] == "")
    {
      assert lines[1..][i] == lines[i + 1] && lines[1..][i + 1] == lines[i + 2];
    }
  }

  /** Text that already has no doubled empty line is left as it is. */
  lemma {:induction false} CollapseFixesClean(lines: seq<string>)
    requires |lines| > 0
    requires NoAdjacentEmpty(lines)
    ensures Collapse(lines) == lines
    decreases |lines|
  {
    if |lines| > 1 {
      NoAdjacentEmptyTail(lines);
      CollapseFixesClean(lines[1..]);
      assert !(lines[0] == "" && lines[1] == "");
      assert Collapse(lines) == [lines[0]] + Collapse(lines[1..]);
      assert [lines[0]] + lines[1..] == lines;
    }
  }

  /** Cleaning twice is the same as cleaning once. */
  lemma CollapseIdempotent(lines: seq<string>)
    requires |lines| > 0
    ensures Collapse(Collapse(lines)) == Collapse(lines)
  {
    CollapseNoAdjacentEmpty(lines);
    CollapseFixesClean(Collapse(lines));
  }

  /**
   * Of two neighbouring empty lines only one matters: a run of empty lines
   * has the same cleaned form as a single empty line.
   */
  lemma {:induction false} CollapseAbsorbsBlank(a: seq<string>, b: seq<string>)
    ensures Collapse(a + ["", ""] + b) == Collapse(a + [""] + b)
    decreases |a|
  {
    if |a| == 0 {
      assert a + ["", ""] + b == [""] + ([""] + b);
      assert (a + ["", ""] + b)[1..] == [""] + b;
      assert a + [""] + b == [""] + b;
    } else {
      var long := a + ["", ""] + b;
      var short := a + [""] + b;
      assert long[1..] == a[1..] + ["", ""] + b;
      assert short[1..] == a[1..] + [""] + b;
      CollapseAbsorbsBlank(a[1..], b);
      assert long[0] == short[0] && long[1] == short[1];
      var keep := if long[0] == "" && long[1] == "" then [] else [long[0]];
      assert Collapse(long) == keep + Collapse(long[1..]);
      assert Collapse(short) == keep + Collapse(short[1..]);
    }
  }
}
