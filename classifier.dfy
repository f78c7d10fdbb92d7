/**
 * The reference definition of one classification cycle, as functions of the
 * element geometry, the viewport and the previous cycle's status table, and
 * the properties proved about it. The Tracker class in tracker.dfy is proved
 * to compute exactly these functions.
 */
module Classifier {
  import opened Status

  /** An element's vertical extent: its offset from the top of the page and its height. */
  datatype Element = Element(top: int, height: int)
  {
    function Bottom(): int { top + height }
  }

  /** The viewport's vertical extent, both ends included. */
  datatype View = View(top: int, bottom: int)

  /** The whole element lies inside the viewport. */
  predicate IsVisibleIn(e: Element, v: View)
  {
    e.Bottom() >= v.top && e.top <= v.bottom && e.Bottom() <= v.bottom && e.top >= v.top
  }

  /** The element overlaps the viewport at all (this includes lying wholly inside it). */
  predicate IsPartiallyVisibleIn(e: Element, v: View)
  {
    e.Bottom() >= v.top && e.top <= v.bottom
  }

  lemma VisibleImpliesPartiallyVisible(e: Element, v: View)
    ensures IsVisibleIn(e, v) ==> IsPartiallyVisibleIn(e, v)
  {
  }

  // ---------------------------------------------------------------------
  // Classifying one element

  /** setInitialVisibilityStatus: OR the geometric flags of an element into its code. */
  function ClassifyInto(c: StatusCode, e: Element, v: View): (r: StatusCode)
    ensures HasFlag(r, Visible) <==> HasFlag(c, Visible) || IsVisibleIn(e, v)
    ensures HasFlag(r, PartiallyVisible) <==> HasFlag(c, PartiallyVisible) || IsPartiallyVisibleIn(e, v)
    ensures forall g :: g != Visible && g != PartiallyVisible ==> (HasFlag(r, g) <==> HasFlag(c, g))
    ensures WellFormed(c) ==> WellFormed(r)
  {
    var c1 := if IsVisibleIn(e, v) then SetFlag(c, Visible) else c;
    if IsPartiallyVisibleIn(e, v) then SetFlag(c1, PartiallyVisible) else c1
  }

  /** The code a blank status gets from classification. */
  function Classify(e: Element, v: View): (r: StatusCode)
    ensures HasFlag(r, Visible) <==> IsVisibleIn(e, v)
    ensures HasFlag(r, PartiallyVisible) <==> IsPartiallyVisibleIn(e, v)
    ensures forall g :: g != Visible && g != PartiallyVisible ==> !HasFlag(r, g)
    ensures HasFlag(r, Visible) ==> HasFlag(r, PartiallyVisible)
    ensures WellFormed(r)
    ensures r == BLANK <==> !IsPartiallyVisibleIn(e, v)
  {
    ClassifyInto(BLANK, e, v)
  }

  /** Classifying an element a second time changes nothing. */
  lemma ClassifyTwice(e: Element, v: View)
    ensures ClassifyInto(Classify(e, v), e, v) == Classify(e, v)
  {
  }

  // ---------------------------------------------------------------------
  // Status tables

  function Blank(n: nat): (t: seq<StatusCode>)
    ensures |t| == n
  {
    seq(n, _ => BLANK)
  }

  /** The table with every index in [lo, hi) classified and the rest untouched. */
  function ClassifyRange(t: seq<StatusCode>, elems: seq<Element>, v: View, lo: nat, hi: nat): (r: seq<StatusCode>)
    requires |t| == |elems|
    ensures |r| == |t|
  {
    seq(|t|, i requires 0 <= i < |t| => if lo <= i < hi then ClassifyInto(t[i], elems[i], v) else t[i])
  }

  /** A code the previous cycle saw as at least partially visible. */
  predicate Seen(c: StatusCode)
  {
    HasFlag(c, Visible) || HasFlag(c, PartiallyVisible)
  }

  // ---------------------------------------------------------------------
  // Start index

  /** The least index at or after `from` whose code is Seen, or |t| if there is none. */
  function FirstSeen(t: seq<StatusCode>, from: nat): (r: nat)
    requires from <= |t|
    decreases |t| - from
    ensures from <= r <= |t|
    ensures r < |t| ==> Seen(t[r])
    ensures forall j :: from <= j < r ==> !Seen(t[j])
  {
    if from == |t| then from
    else if Seen(t[from]) then from
    else FirstSeen(t, from + 1)
  }

  /** The start hint: the first index the previous cycle saw, or 0. */
  function StartHint(prev: seq<StatusCode>): (h: nat)
    requires |prev| >= 1
    ensures h < |prev|
    ensures forall j :: 0 <= j < h ==> !Seen(prev[j])
    ensures Seen(prev[h]) || (h == 0 && forall j :: 0 <= j < |prev| ==> !Seen(prev[j]))
  {
    var k := FirstSeen(prev, 0);
    if k < |prev| then k else 0
  }

  /**
   * The backward walk from the hint: step down while the element is still
   * partially visible and the index is positive.
   */
  function WalkBack(elems: seq<Element>, v: View, i: nat): (r: nat)
    requires i < |elems|
    ensures r <= i
    ensures r == 0 || !IsPartiallyVisibleIn(elems[r], v)
    ensures forall j :: r < j <= i ==> IsPartiallyVisibleIn(elems[j], v)
  {
    if IsPartiallyVisibleIn(elems[i], v) && i > 0 then WalkBack(elems, v, i - 1) else i
  }

  // ---------------------------------------------------------------------
  // Forward scan

  /** The least index at or after `from` whose partial visibility is `covered`, or |elems| if none. */
  function FirstCovered(elems: seq<Element>, v: View, from: nat, covered: bool): (r: nat)
    requires from <= |elems|
    decreases |elems| - from
    ensures from <= r <= |elems|
    ensures r < |elems| ==> IsPartiallyVisibleIn(elems[r], v) == covered
    ensures forall j :: from <= j < r ==> IsPartiallyVisibleIn(elems[j], v) != covered
  {
    if from == |elems| then from
    else if IsPartiallyVisibleIn(elems[from], v) == covered then from
    else FirstCovered(elems, v, from + 1, covered)
  }

  /**
   * Where the forward scan from `s` stops: the first element that is not
   * partially visible after the first one that is, or the end of the list.
   */
  function ScanStop(elems: seq<Element>, v: View, s: nat): (r: nat)
    requires s <= |elems|
    ensures s <= r <= |elems|
    ensures s < |elems| ==> s < r
    ensures forall j :: s <= j < r ==> (IsPartiallyVisibleIn(elems[j], v) <==> FirstCovered(elems, v, s, true) <= j)
    ensures r < |elems| ==> !IsPartiallyVisibleIn(elems[r], v) && IsPartiallyVisibleIn(elems[r - 1], v)
  {
    FirstCovered(elems, v, FirstCovered(elems, v, s, true), false)
  }

  /** Some element with index in [lo, hi) is fully visible. */
  function AnyVisible(elems: seq<Element>, v: View, lo: nat, hi: nat): (b: bool)
    requires hi <= |elems|
    decreases hi
    ensures b <==> exists j :: lo <= j < hi && IsVisibleIn(elems[j], v)
  {
    if hi <= lo then false else AnyVisible(elems, v, lo, hi - 1) || IsVisibleIn(elems[hi - 1], v)
  }

  // ---------------------------------------------------------------------
  // First, last and no-visible-siblings marking

  /** The least index at or after `from` carrying flag f, or |t| if none. */
  function FirstWith(t: seq<StatusCode>, from: nat, f: Flag): (r: nat)
    requires from <= |t|
    decreases |t| - from
    ensures from <= r <= |t|
    ensures r < |t| ==> HasFlag(t[r], f)
    ensures forall j :: from <= j < r ==> !HasFlag(t[j], f)
  {
    if from == |t| then from
    else if HasFlag(t[from], f) then from
    else FirstWith(t, from + 1, f)
  }

  /** The greatest index below `hi` carrying flag f, or -1 if none. */
  function LastWith(t: seq<StatusCode>, hi: nat, f: Flag): (r: int)
    requires hi <= |t|
    ensures -1 <= r < hi
    ensures r >= 0 ==> HasFlag(t[r], f)
    ensures forall j :: r < j < hi ==> !HasFlag(t[j], f)
  {
    if hi == 0 then -1
    else if HasFlag(t[hi - 1], f) then hi - 1
    else LastWith(t, hi - 1, f)
  }

  /** Set flag f on index i; an index outside the table changes nothing. */
  function MarkAt(t: seq<StatusCode>, i: int, f: Flag): (r: seq<StatusCode>)
    ensures |r| == |t|
    ensures forall j :: 0 <= j < |t| && j != i ==> r[j] == t[j]
  {
    if 0 <= i < |t| then t[i := SetFlag(t[i], f)] else t
  }

  /** MarkAt adds flag f on index i and changes no other flag. */
  lemma MarkAtFlags(t: seq<StatusCode>, i: int, f: Flag)
    ensures var r := MarkAt(t, i, f);
      (forall j, g :: 0 <= j < |t| ==> (HasFlag(r[j], g) <==> HasFlag(t[j], g) || (g == f && j == i))) &&
      (forall j :: 0 <= j < |t| && WellFormed(t[j]) ==> WellFormed(r[j]))
  {
  }

  /** searchForFirstElements: mark the first visible and the first partially visible index at or after `from`. */
  function MarkFirst(t: seq<StatusCode>, from: nat): (r: seq<StatusCode>)
    requires from <= |t|
    ensures |r| == |t|
  {
    var fv := FirstWith(t, from, Visible);
    var fp := FirstWith(t, from, PartiallyVisible);
    MarkAt(MarkAt(t, fv, FirstVisible), fp, FirstPartiallyVisible)
  }

  /** searchForLastElements: mark the last visible and the last partially visible index of the whole table. */
  function MarkLast(t: seq<StatusCode>): (r: seq<StatusCode>)
    ensures |r| == |t|
  {
    var lv := LastWith(t, |t|, Visible);
    var lp := LastWith(t, |t|, PartiallyVisible);
    MarkAt(MarkAt(t, lv, LastVisible), lp, LastPartiallyVisible)
  }

  /** setSiblingStatusForPartiallyVisibleElements. */
  function MarkNoSiblings(t: seq<StatusCode>, from: nat, found: bool): (r: seq<StatusCode>)
    ensures |r| == |t|
    ensures forall j :: 0 <= j < |t| && (found || j < from || !HasFlag(t[j], PartiallyVisible)) ==> r[j] == t[j]
  {
    if found then t
    else seq(|t|, i requires 0 <= i < |t| =>
               if from <= i && HasFlag(t[i], PartiallyVisible) then SetFlag(t[i], PartiallyVisibleWithNoVisibleSiblings) else t[i])
  }

  /**
   * MarkNoSiblings adds partiallyVisibleWithNoVisibleSiblings exactly to the
   * partially visible entries at or after `from`, and only when nothing was found.
   */
  lemma MarkNoSiblingsFlags(t: seq<StatusCode>, from: nat, found: bool)
    ensures var r := MarkNoSiblings(t, from, found);
      (forall j, g :: 0 <= j < |t| ==>
         (HasFlag(r[j], g) <==>
            (HasFlag(t[j], g) ||
             (g == PartiallyVisibleWithNoVisibleSiblings && !found && from <= j && HasFlag(t[j], PartiallyVisible))))) &&
      (forall j :: 0 <= j < |t| && WellFormed(t[j]) ==> WellFormed(r[j]))
  {
  }

  // ---------------------------------------------------------------------
  // One cycle

  datatype Outcome = Outcome(statuses: seq<StatusCode>, startIdx: nat, visibleElementsFound: bool)

  /** Everything a cycle does once its start index is fixed. */
  function ScanFrom(elems: seq<Element>, v: View, s: nat): (o: Outcome)
    requires s < |elems|
  {
    var stop := ScanStop(elems, v, s);
    var found := AnyVisible(elems, v, s, stop);
    var t0 := ClassifyRange(Blank(|elems|), elems, v, s, stop);
    Outcome(MarkNoSiblings(MarkLast(MarkFirst(t0, s)), s, found), s, found)
  }

  /** detectElementStatuses, without the change events: the outcome of a cycle given the previous table. */
  function Cycle(elems: seq<Element>, prev: seq<StatusCode>, v: View): (o: Outcome)
    requires |elems| >= 1 && |prev| == |elems|
  {
    ScanFrom(elems, v, WalkBack(elems, v, StartHint(prev)))
  }

  // ---------------------------------------------------------------------
  // Change events

  datatype Event = StatusChange(index: nat, status: StatusCode)

  /** triggerStatusChangeEvents over the first k indices: one event per index whose code changed, in index order. */
  function ChangeEvents(prev: seq<StatusCode>, cur: seq<StatusCode>, k: nat): (r: seq<Event>)
    requires |prev| == |cur| && k <= |cur|
    ensures |r| <= k
  {
    if k == 0 then []
    else ChangeEvents(prev, cur, k - 1) + (if prev[k - 1] != cur[k - 1] then [StatusChange(k - 1, cur[k - 1])] else [])
  }

  /** Every event names an index below k whose code changed, carries its new code, and events come in index order. */
  lemma {:induction false} ChangeEventsSound(prev: seq<StatusCode>, cur: seq<StatusCode>, k: nat)
    requires |prev| == |cur| && k <= |cur|
    ensures forall j :: 0 <= j < |ChangeEvents(prev, cur, k)| ==>
              var e := ChangeEvents(prev, cur, k)[j];
              e.index < k && prev[e.index] != cur[e.index] && e.status == cur[e.index]
    ensures forall j1, j2 :: 0 <= j1 < j2 < |ChangeEvents(prev, cur, k)| ==>
              ChangeEvents(prev, cur, k)[j1].index < ChangeEvents(prev, cur, k)[j2].index
  {
    if k > 0 {
      ChangeEventsSound(prev, cur, k - 1);
      var rest := ChangeEvents(prev, cur, k - 1);
      var last := if prev[k - 1] != cur[k - 1] then [StatusChange(k - 1, cur[k - 1])] else [];
      assert ChangeEvents(prev, cur, k) == rest + last;
    }
  }

  /** A cycle that changed no code notifies nobody. */
  lemma {:induction false} NoChangeNoEvents(prev: seq<StatusCode>, cur: seq<StatusCode>, k: nat)
    requires |prev| == |cur| && k <= |cur|
    requires forall i :: 0 <= i < k ==> prev[i] == cur[i]
    ensures ChangeEvents(prev, cur, k) == []
  {
    if k > 0 {
      NoChangeNoEvents(prev, cur, k - 1);
    }
  }

  /** Every index below k whose code changed gets an event. */
  lemma {:induction false} ChangeEventsComplete(prev: seq<StatusCode>, cur: seq<StatusCode>, k: nat, i: nat)
    requires |prev| == |cur| && k <= |cur|
    requires i < k && prev[i] != cur[i]
    ensures exists j :: 0 <= j < |ChangeEvents(prev, cur, k)| && ChangeEvents(prev, cur, k)[j].index == i
  {
    var rest := ChangeEvents(prev, cur, k - 1);
    var r := ChangeEvents(prev, cur, k);
    assert r == rest + (if prev[k - 1] != cur[k - 1] then [StatusChange(k - 1, cur[k - 1])] else []);
    if i == k - 1 {
      assert r[|rest|].index == i;
    } else {
      ChangeEventsComplete(prev, cur, k - 1, i);
      var j :| 0 <= j < |rest| && rest[j].index == i;
      assert r[j] == rest[j];
    }
  }
}
