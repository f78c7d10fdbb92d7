module Scenarios {
  import opened Status
  import opened Classifier
  import CycleProperties

  /** Three stacked rows of height 100, at tops 0, 100 and 200. */
  function ThreeRows(): seq<Element>
  {
    [Element(0, 100), Element(100, 100), Element(200, 100)]
  }

  lemma PartialPair()
    ensures Cycle(ThreeRows(), Blank(3), View(50, 180)).statuses ==
      [STATUS_PARTIALLY_VISIBLE | STATUS_FIRST_PARTIALLY_VISIBLE | STATUS_PARTIALLY_VISIBLE_WITH_NO_VISIBLE_SIBLINGS,
       STATUS_PARTIALLY_VISIBLE | STATUS_LAST_PARTIALLY_VISIBLE | STATUS_PARTIALLY_VISIBLE_WITH_NO_VISIBLE_SIBLINGS,
       BLANK]
  {
    var elems, v := ThreeRows(), View(50, 180);
    var p := STATUS_PARTIALLY_VISIBLE;
    assert StartHint(Blank(3)) == 0 && WalkBack(elems, v, 0) == 0;
    assert FirstCovered(elems, v, 0, true) == 0 && ScanStop(elems, v, 0) == 2;
    assert !AnyVisible(elems, v, 0, 2);
    var t0 := ClassifyRange(Blank(3), elems, v, 0, 2);
    assert t0 == [p, p, BLANK];
    assert FirstWith(t0, 0, Visible) == 3 && FirstWith(t0, 0, PartiallyVisible) == 0;
    var t1 := MarkFirst(t0, 0);
    assert t1 == [p | STATUS_FIRST_PARTIALLY_VISIBLE, p, BLANK];
    assert LastWith(t1, 3, Visible) == -1 && LastWith(t1, 3, PartiallyVisible) == 1;
  }

  /** The code of a lone partially visible element: first, last, and with no visible siblings. */
  function LonePartial(): StatusCode
  {
    STATUS_PARTIALLY_VISIBLE | STATUS_FIRST_PARTIALLY_VISIBLE | STATUS_LAST_PARTIALLY_VISIBLE |
      STATUS_PARTIALLY_VISIBLE_WITH_NO_VISIBLE_SIBLINGS
  }

  /**
   * A scan from s that meets exactly one element overlapping the viewport,
   * and that element not wholly inside it, leaves that element with the
   * lone partially visible code.
   */
  lemma LonePartialScan(elems: seq<Element>, v: View, s: nat, k: nat)
    requires s <= k < |elems|
    requires IsPartiallyVisibleIn(elems[k], v) && !IsVisibleIn(elems[k], v)
    requires forall i :: s <= i < |elems| && i != k ==> !IsPartiallyVisibleIn(elems[i], v)
    ensures var st := ScanFrom(elems, v, s).statuses;
      k < |st| && st[k] == LonePartial()
  {
    var t0 := ClassifyRange(Blank(|elems|), elems, v, s, ScanStop(elems, v, s));
    LoneScannedTable(elems, v, s, k);
    LoneMarks(t0, s, k);
    CycleProperties.ScanMarks(elems, v, s);
    var st := ScanFrom(elems, v, s).statuses;
    SameFlagsSameCode(st[k], LonePartial());
  }

  /** The table the scan leaves: only entry k carries a geometric flag, and nothing is found visible. */
  lemma LoneScannedTable(elems: seq<Element>, v: View, s: nat, k: nat)
    requires s <= k < |elems|
    requires IsPartiallyVisibleIn(elems[k], v) && !IsVisibleIn(elems[k], v)
    requires forall i :: s <= i < |elems| && i != k ==> !IsPartiallyVisibleIn(elems[i], v)
    ensures var stop := ScanStop(elems, v, s);
      var t0 := ClassifyRange(Blank(|elems|), elems, v, s, stop);
      |t0| == |elems| && !AnyVisible(elems, v, s, stop) &&
      HasFlag(t0[k], PartiallyVisible) && !HasFlag(t0[k], Visible) &&
      forall i :: 0 <= i < |t0| && i != k ==> !HasFlag(t0[i], Visible) && !HasFlag(t0[i], PartiallyVisible)
  {
    var stop := ScanStop(elems, v, s);
    CycleProperties.ClassifiedTable(elems, v, s, stop);
    assert k < stop;
  }

  /** The first and last marks of a table whose only partially visible entry is k, with no visible entry. */
  lemma LoneMarks(t0: seq<StatusCode>, s: nat, k: nat)
    requires s <= k < |t0|
    requires HasFlag(t0[k], PartiallyVisible) && !HasFlag(t0[k], Visible)
    requires forall i :: 0 <= i < |t0| && i != k ==> !HasFlag(t0[i], Visible) && !HasFlag(t0[i], PartiallyVisible)
    ensures FirstWith(t0, s, Visible) == |t0| && FirstWith(t0, s, PartiallyVisible) == k
    ensures LastWith(t0, |t0|, Visible) == -1 && LastWith(t0, |t0|, PartiallyVisible) == k
  {
  }

  /**
   * The same for a whole cycle: when exactly one element overlaps the
   * viewport, is not wholly inside it, and the previous cycle saw nothing
   * below it, the cycle marks it as the lone partially visible element.
   */
  lemma LonePartialCycle(elems: seq<Element>, prev: seq<StatusCode>, v: View, k: nat)
    requires |prev| == |elems| && k < |elems|
    requires StartHint(prev) <= k
    requires IsPartiallyVisibleIn(elems[k], v) && !IsVisibleIn(elems[k], v)
    requires forall i :: 0 <= i < |elems| && i != k ==> !IsPartiallyVisibleIn(elems[i], v)
    ensures var st := Cycle(elems, prev, v).statuses;
      k < |st| && st[k] == LonePartial()
  {
    var s := WalkBack(elems, v, StartHint(prev));
    assert Cycle(elems, prev, v) == ScanFrom(elems, v, s);
    LonePartialScan(elems, v, s, k);
  }

  lemma ScrolledToBottom()
    ensures Cycle(ThreeRows(), Blank(3), View(250, 350)).statuses == [BLANK, BLANK, LonePartial()]
  {
  }

  lemma JumpedToTop()
    ensures Cycle(ThreeRows(), [BLANK, BLANK, LonePartial()], View(0, 50)).statuses == Blank(3)
  {
    var prev := [BLANK, BLANK, LonePartial()];
    var v := View(0, 50);
    assert !Seen(prev[0]) && !Seen(prev[1]) && Seen(prev[2]);
    assert StartHint(prev) == 2;
    assert WalkBack(ThreeRows(), v, 2) == 2;
    assert ScanStop(ThreeRows(), v, 2) == 3;
    assert ClassifyRange(Blank(3), ThreeRows(), v, 2, 3) == Blank(3);
  }

  lemma SettledAtTop()
    ensures Cycle(ThreeRows(), Blank(3), View(0, 50)).statuses == [LonePartial(), BLANK, BLANK]
  {
  }

  lemma JumpUpMissesElement()
    ensures var scrolled := Cycle(ThreeRows(), Blank(3), View(250, 350)).statuses;
      var o1 := Cycle(ThreeRows(), scrolled, View(0, 50));
      var o2 := Cycle(ThreeRows(), o1.statuses, View(0, 50));
      IsPartiallyVisibleIn(ThreeRows()[0], View(0, 50)) &&
      o1.statuses[0] == BLANK && o2.statuses[0] != BLANK &&
      o2.statuses != o1.statuses
  {
    ScrolledToBottom();
    JumpedToTop();
    SettledAtTop();
  }
}
