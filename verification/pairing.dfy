/**
 * The completeness check of a section: every fly (a date and a fly number)
 * must have been seen with both panels, because the figure layout places
 * each fly's two panels side by side.
 */
module Pairing {
  import opened Results
  import opened FileKeys

  /** One fly: the date and the fly number of a key. */
  datatype FlyId = FlyId(date: Date, fly: int)

  function FlyOf(k: FileKey): FlyId
  {
    FlyId(k.date, k.fly)
  }

  /** The panel positions that files of fly `f` carry. */
  function PanelsOf(keys: seq<FileKey>, f: FlyId): set<int>
  {
    set i | 0 <= i < |keys| && FlyOf(keys[i]) == f :: keys[i].panel
  }

  lemma PanelsOfSnoc(keys: seq<FileKey>)
    requires |keys| > 0
    ensures forall f ::
              PanelsOf(keys, f) ==
              PanelsOf(keys[..|keys| - 1], f) + (if FlyOf(keys[|keys| - 1]) == f then {keys[|keys| - 1].panel} else {})
  {
    var pre := keys[..|keys| - 1];
    forall f
      ensures PanelsOf(keys, f) ==
        PanelsOf(pre, f) + (if FlyOf(keys[|keys| - 1]) == f then {keys[|keys| - 1].panel} else {})
    {
      forall p | p in PanelsOf(keys, f)
        ensures p in PanelsOf(pre, f) + (if FlyOf(keys[|keys| - 1]) == f then {keys[|keys| - 1].panel} else {})
      {
        var i :| 0 <= i < |keys| && FlyOf(keys[i]) == f && keys[i].panel == p;
        if i < |pre| {
          assert pre[i] == keys[i];
        }
      }
      forall p | p in PanelsOf(pre, f)
        ensures p in PanelsOf(keys, f)
      {
        var i :| 0 <= i < |pre| && FlyOf(pre[i]) == f && pre[i].panel == p;
        assert keys[i] == pre[i];
      }
    }
  }

  /** Fly -> set of panels seen, filled in one file at a time. */
  function SeenPanels(keys: seq<FileKey>): (m: map<FlyId, set<int>>)
    ensures forall f :: f in m <==> exists i :: 0 <= i < |keys| && FlyOf(keys[i]) == f
    ensures forall f :: f in m ==> m[f] == PanelsOf(keys, f)
  {
    if |keys| == 0 then map[]
    else
      var pre := keys[..|keys| - 1];
      var m := SeenPanels(pre);
      var k := keys[|keys| - 1];
      var f := FlyOf(k);
      PanelsOfSnoc(keys);
      assert forall i :: 0 <= i < |pre| ==> pre[i] == keys[i];
      if f !in m then m[f := {k.panel}] else m[f := m[f] + {k.panel}]
  }

  /**
   * The panel set of the first fly is the reference; the first fly whose
   * panel set has not two elements or differs from the reference is reported.
   * Flies are visited in the order their first file appears.
   */
  function FirstUnpaired(keys: seq<FileKey>): Option<FlyId>
    requires |keys| > 0
  {
    var seen := SeenPanels(keys);
    var p0 := seen[FlyOf(keys[0])];
    CheckFrom(keys, seen, p0, 0)
  }

  function CheckFrom(keys: seq<FileKey>, seen: map<FlyId, set<int>>, p0: set<int>, i: nat): Option<FlyId>
    requires i <= |keys|
    requires forall j :: 0 <= j < |keys| ==> FlyOf(keys[j]) in seen
    decreases |keys| - i
  {
    if i == |keys| then None
    else
      var s := seen[FlyOf(keys[i])];
      if |s| != 2 || s != p0 then Some(FlyOf(keys[i])) else CheckFrom(keys, seen, p0, i + 1)
  }

  /** Every panel is one of the two positions. */
  predicate BinaryPanels(keys: seq<FileKey>)
  {
    forall i :: 0 <= i < |keys| ==> keys[i].panel == 0 || keys[i].panel == 1
  }

  /** Some file of the same fly carries the other panel. */
  predicate HasPartner(keys: seq<FileKey>, i: int)
    requires 0 <= i < |keys|
  {
    exists j :: 0 <= j < |keys| && FlyOf(keys[j]) == FlyOf(keys[i]) && keys[j].panel != keys[i].panel
  }

  /** A fly's panel set has two elements exactly when each of its files has a partner; it is then {0, 1}. */
  lemma PanelSetOfFile(keys: seq<FileKey>, i: int)
    requires BinaryPanels(keys)
    requires 0 <= i < |keys|
    ensures HasPartner(keys, i) ==> PanelsOf(keys, FlyOf(keys[i])) == {0, 1}
    ensures !HasPartner(keys, i) ==> PanelsOf(keys, FlyOf(keys[i])) == {keys[i].panel}
    ensures |PanelsOf(keys, FlyOf(keys[i]))| == 2 <==> HasPartner(keys, i)
  {
    var s := PanelsOf(keys, FlyOf(keys[i]));
    assert keys[i].panel in s;
    assert s <= {0, 1};
    if HasPartner(keys, i) {
      var j :| 0 <= j < |keys| && FlyOf(keys[j]) == FlyOf(keys[i]) && keys[j].panel != keys[i].panel;
      assert keys[j].panel in s;
      assert s == {0, 1};
    } else {
      assert s == {keys[i].panel};
    }
  }

  lemma {:induction false} CheckFromCharacterized(keys: seq<FileKey>, seen: map<FlyId, set<int>>, i: nat)
    requires i <= |keys|
    requires BinaryPanels(keys)
    requires forall j :: 0 <= j < |keys| ==> FlyOf(keys[j]) in seen
    requires forall f :: f in seen ==> seen[f] == PanelsOf(keys, f)
    ensures CheckFrom(keys, seen, {0, 1}, i).None? <==> forall j :: i <= j < |keys| ==> HasPartner(keys, j)
    ensures CheckFrom(keys, seen, {0, 1}, i).Some? ==>
      exists j :: i <= j < |keys| && !HasPartner(keys, j) && CheckFrom(keys, seen, {0, 1}, i).value == FlyOf(keys[j])
        && forall l :: i <= l < j ==> HasPartner(keys, l)
    decreases |keys| - i
  {
    if i < |keys| {
      var s := seen[FlyOf(keys[i])];
      PanelSetOfFile(keys, i);
      assert (|s| != 2 || s != {0, 1}) <==> !HasPartner(keys, i);
      var here := CheckFrom(keys, seen, {0, 1}, i);
      var next := CheckFrom(keys, seen, {0, 1}, i + 1);
      CheckFromCharacterized(keys, seen, i + 1);
      if !HasPartner(keys, i) {
        assert here == Some(FlyOf(keys[i]));
      } else {
        assert here == next;
        if next.Some? {
          var j :| i + 1 <= j < |keys| && !HasPartner(keys, j) && next.value == FlyOf(keys[j])
            && forall l :: i + 1 <= l < j ==> HasPartner(keys, l);
          assert forall l :: i <= l < j ==> HasPartner(keys, l);
        }
      }
    }
  }

  /**
   * The check passes exactly when every file has a partner file of the same
   * fly with the other panel; otherwise it names the fly of the first file
   * without one. Comparing with the first fly's panel set adds nothing to
   * the two-element test.
   */
  lemma FirstUnpairedCharacterized(keys: seq<FileKey>)
    requires |keys| > 0
    requires BinaryPanels(keys)
    ensures FirstUnpaired(keys).None? <==> forall i :: 0 <= i < |keys| ==> HasPartner(keys, i)
    ensures FirstUnpaired(keys).Some? ==>
      exists i :: 0 <= i < |keys| && !HasPartner(keys, i) && FirstUnpaired(keys).value == FlyOf(keys[i])
        && forall j :: 0 <= j < i ==> HasPartner(keys, j)
  {
    var seen := SeenPanels(keys);
    assert FlyOf(keys[0]) in seen;
    PanelSetOfFile(keys, 0);
    if HasPartner(keys, 0) {
      CheckFromCharacterized(keys, seen, 0);
    }
  }

  /** A file whose key repeats one already present does not make a complete section incomplete. */
  lemma RepeatedKeyAccepted(keys: seq<FileKey>, i: int)
    requires 0 <= i < |keys|
    requires BinaryPanels(keys)
    requires FirstUnpaired(keys).None?
    ensures FirstUnpaired(keys + [keys[i]]).None?
  {
    var more := keys + [keys[i]];
    FirstUnpairedCharacterized(keys);
    FirstUnpairedCharacterized(more);
    forall l | 0 <= l < |more|
      ensures HasPartner(more, l)
    {
      var m := if l < |keys| then l else i;
      assert more[l] == keys[m];
      assert HasPartner(keys, m);
      var j :| 0 <= j < |keys| && FlyOf(keys[j]) == FlyOf(keys[m]) && keys[j].panel != keys[m].panel;
      assert more[j] == keys[j];
    }
  }
}
