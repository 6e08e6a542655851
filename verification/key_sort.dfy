/**
 * Sorting a section's files by key. The source's sort is stable, so files
 * with equal keys keep their input order: that is the same as sorting by
 * the key and then by input position, a strict total order for which the
 * sorted arrangement is unique.
 */
module KeySort {
  import opened FileKeys

  /** A file to be sorted: its name, its key and its position in the input. */
  datatype Entry = Entry(name: string, key: FileKey, pos: nat)

  /** Key order, ties broken by input position. */
  predicate EntryBefore(a: Entry, b: Entry)
  {
    KeyBefore(a.key, b.key) || (a.key == b.key && a.pos < b.pos)
  }

  predicate Ascending(s: seq<Entry>)
  {
    forall i, j :: 0 <= i < j < |s| ==> EntryBefore(s[i], s[j])
  }

  predicate DistinctPositions(s: seq<Entry>)
  {
    forall i, j :: 0 <= i < j < |s| ==> s[i].pos != s[j].pos
  }

  function Names(s: seq<Entry>): (names: seq<string>)
    ensures |names| == |s|
    ensures forall i :: 0 <= i < |s| ==> names[i] == s[i].name
  {
    seq(|s|, i requires 0 <= i < |s| => s[i].name)
  }

  /** Keys are strictly ordered: never before themselves, and distinct keys compare one way only. */
  lemma KeyOrder(a: FileKey, b: FileKey)
    ensures !KeyBefore(a, a)
    ensures a != b ==> (KeyBefore(a, b) <==> !KeyBefore(b, a))
  {
    if a != b && a.date == b.date && a.fly == b.fly {
      assert a.panel != b.panel;
    } else if a != b && a.date != b.date {
      assert a.date.year != b.date.year || a.date.month != b.date.month || a.date.day != b.date.day;
    }
  }

  lemma KeyTransitive(a: FileKey, b: FileKey, c: FileKey)
    requires KeyBefore(a, b) && KeyBefore(b, c)
    ensures KeyBefore(a, c)
  {
  }

  /** Entries at distinct positions compare in exactly one direction. */
  lemma EntryOrder(a: Entry, b: Entry)
    ensures !EntryBefore(a, a)
    ensures a.pos != b.pos ==> (EntryBefore(a, b) <==> !EntryBefore(b, a))
  {
    KeyOrder(a.key, b.key);
  }

  lemma EntryTransitive(a: Entry, b: Entry, c: Entry)
    requires EntryBefore(a, b) && EntryBefore(b, c)
    ensures EntryBefore(a, c)
  {
    if KeyBefore(a.key, b.key) && KeyBefore(b.key, c.key) {
      KeyTransitive(a.key, b.key, c.key);
    }
  }

  lemma PrependAscending(e: Entry, s: seq<Entry>)
    requires Ascending(s)
    requires forall x :: x in s ==> EntryBefore(e, x)
    ensures Ascending([e] + s)
  {
    var r := [e] + s;
    forall i, j | 0 <= i < j < |r|
      ensures EntryBefore(r[i], r[j])
    {
      if i == 0 {
        assert r[j] == s[j - 1] && r[j] in s;
      } else {
        assert r[i] == s[i - 1] && r[j] == s[j - 1];
      }
    }
  }

  lemma NamesCons(e: Entry, s: seq<Entry>)
    ensures Names([e] + s) == [e.name] + Names(s)
  {
    assert forall i :: 0 < i <= |s| ==> ([e] + s)[i] == s[i - 1];
  }

  /** Inserting one entry into an ascending sequence. */
  function Insert(e: Entry, s: seq<Entry>): (r: seq<Entry>)
    requires Ascending(s)
    requires forall x :: x in s ==> x.pos != e.pos
    ensures Ascending(r)
    ensures multiset(r) == multiset(s) + multiset{e}
  {
    if |s| == 0 then [e]
    else if EntryBefore(e, s[0]) then
      assert forall x :: x in s ==> EntryBefore(e, x) by {
        forall x | x in s ensures EntryBefore(e, x) {
          if x != s[0] {
            var k :| 0 <= k < |s| && s[k] == x;
            EntryTransitive(e, s[0], x);
          }
        }
      }
      PrependAscending(e, s);
      [e] + s
    else
      var rest := Insert(e, s[1..]);
      EntryOrder(e, s[0]);
      assert forall x :: x in rest ==> EntryBefore(s[0], x) by {
        forall x | x in rest ensures EntryBefore(s[0], x) {
          assert x in multiset(rest);
          if x != e {
            var k :| 0 <= k < |s[1..]| && s[1..][k] == x;
            assert s[k + 1] == x;
          }
        }
      }
      PrependAscending(s[0], rest);
      assert s == [s[0]] + s[1..];
      [s[0]] + rest
  }

  /** The stable sort: insertion of each entry, in input order. */
  function Sort(s: seq<Entry>): (r: seq<Entry>)
    requires DistinctPositions(s)
    ensures Ascending(r)
    ensures multiset(r) == multiset(s)
    ensures forall i, j :: 0 <= i < j < |r| && r[i].key == r[j].key ==> r[i].pos < r[j].pos
  {
    if |s| == 0 then []
    else
      var pre := s[..|s| - 1];
      var last := s[|s| - 1];
      PrefixDistinct(s);
      var sorted := Sort(pre);
      LastPositionFresh(s, sorted);
      var r := Insert(last, sorted);
      InsertLastMultiset(s, sorted, r);
      AscendingIsStable(r);
      r
  }

  lemma InsertLastMultiset(s: seq<Entry>, sorted: seq<Entry>, r: seq<Entry>)
    requires |s| > 0
    requires multiset(sorted) == multiset(s[..|s| - 1])
    requires multiset(r) == multiset(sorted) + multiset{s[|s| - 1]}
    ensures multiset(r) == multiset(s)
  {
    assert s == s[..|s| - 1] + [s[|s| - 1]];
  }

  lemma PrefixDistinct(s: seq<Entry>)
    requires |s| > 0 && DistinctPositions(s)
    ensures DistinctPositions(s[..|s| - 1])
  {
    var pre := s[..|s| - 1];
    forall i, j | 0 <= i < j < |pre| ensures pre[i].pos != pre[j].pos {
      assert pre[i] == s[i] && pre[j] == s[j];
    }
  }

  lemma LastPositionFresh(s: seq<Entry>, sorted: seq<Entry>)
    requires |s| > 0 && DistinctPositions(s)
    requires multiset(sorted) == multiset(s[..|s| - 1])
    ensures forall x :: x in sorted ==> x.pos != s[|s| - 1].pos
  {
    var pre := s[..|s| - 1];
    forall x | x in sorted ensures x.pos != s[|s| - 1].pos {
      assert x in multiset(sorted);
      assert x in pre;
      var k :| 0 <= k < |pre| && pre[k] == x;
      assert s[k] == x;
    }
  }

  /** In an ascending sequence, entries with equal keys keep their input order. */
  lemma AscendingIsStable(r: seq<Entry>)
    requires Ascending(r)
    ensures forall i, j :: 0 <= i < j < |r| && r[i].key == r[j].key ==> r[i].pos < r[j].pos
  {
    forall i, j | 0 <= i < j < |r| && r[i].key == r[j].key
      ensures r[i].pos < r[j].pos
    {
      KeyOrder(r[i].key, r[j].key);
    }
  }

  lemma NamesAppend(s: seq<Entry>, e: Entry)
    ensures Names(s + [e]) == Names(s) + [e.name]
  {
    assert forall i :: 0 <= i < |s| ==> (s + [e])[i] == s[i];
  }

  /** Insertion adds exactly the inserted entry's name to the names. */
  lemma {:induction false} InsertNames(e: Entry, s: seq<Entry>)
    requires Ascending(s)
    requires forall x :: x in s ==> x.pos != e.pos
    ensures multiset(Names(Insert(e, s))) == multiset(Names(s)) + multiset{e.name}
    decreases |s|
  {
    if |s| > 0 {
      if EntryBefore(e, s[0]) {
        NamesCons(e, s);
      } else {
        assert Ascending(s[1..]);
        InsertNames(e, s[1..]);
        var rest := Insert(e, s[1..]);
        assert Insert(e, s) == [s[0]] + rest;
        assert s == [s[0]] + s[1..];
        NamesCons(s[0], rest);
        NamesCons(s[0], s[1..]);
        assert multiset(Names(Insert(e, s))) == multiset{s[0].name} + multiset(Names(rest));
      }
    }
  }

  /** Sorting rearranges the file names without adding or losing any. */
  lemma {:induction false} SortNames(s: seq<Entry>)
    requires DistinctPositions(s)
    ensures multiset(Names(Sort(s))) == multiset(Names(s))
    decreases |s|
  {
    if |s| > 0 {
      var pre := s[..|s| - 1];
      var last := s[|s| - 1];
      assert s == pre + [last];
      NamesAppend(pre, last);
      PrefixDistinct(s);
      SortNames(pre);
      var sorted := Sort(pre);
      LastPositionFresh(s, sorted);
      InsertNames(last, sorted);
      assert Sort(s) == Insert(last, sorted);
    }
  }

  /** Two ascending arrangements of the same entries start with the same entry. */
  lemma AscendingSameHead(a: seq<Entry>, b: seq<Entry>)
    requires Ascending(a) && Ascending(b)
    requires |a| > 0 && multiset(a) == multiset(b)
    ensures |b| > 0 && a[0] == b[0]
  {
    assert a[0] in multiset(b);
    assert |b| > 0;
    assert b[0] in multiset(a);
    var i :| 0 <= i < |b| && b[i] == a[0];
    var j :| 0 <= j < |a| && a[j] == b[0];
    if a[0] != b[0] {
      assert EntryBefore(b[0], b[i]);
      assert EntryBefore(a[0], a[j]);
      EntryOrder(a[0], b[0]);
    }
  }

  /**
   * Two ascending arrangements of the same entries are the same sequence: any
   * stable sort of the files yields exactly the order `Sort` yields.
   */
  lemma {:induction false} AscendingUnique(a: seq<Entry>, b: seq<Entry>)
    requires Ascending(a) && Ascending(b)
    requires multiset(a) == multiset(b)
    ensures a == b
    decreases |a|
  {
    if |a| == 0 {
      assert |b| == |multiset(b)| == 0;
    } else {
      AscendingSameHead(a, b);
      assert multiset(a) == multiset{a[0]} + multiset(a[1..]) by { assert a == [a[0]] + a[1..]; }
      assert multiset(b) == multiset{b[0]} + multiset(b[1..]) by { assert b == [b[0]] + b[1..]; }
      assert multiset(a[1..]) == multiset(a) - multiset{a[0]};
      assert multiset(b[1..]) == multiset(b) - multiset{b[0]};
      AscendingUnique(a[1..], b[1..]);
    }
  }
}
