/**
 * The tracker object: the element list, the current and previous status
 * tables, the viewport offsets, the start index of the scan and whether a
 * fully visible element was found. Each method is one step of a cycle and
 * updates those fields in place; each is proved to compute the matching
 * function of the reference cycle in classifier.dfy, so one whole cycle
 * computes Cycle and its change events.
 *
 * The status tables hold one code per element (blank for a fresh status).
 * Triggering 'visibility-status-change' on an element is recorded by
 * appending (index, new code) to the `dispatched` log.
 */
module VisibilityTracker {
  import opened Status
  import opened Classifier
  import CycleProperties

  class Tracker {
    const elements: seq<Element>
    var visibilityStatuses: seq<StatusCode>
    var prevVisibilityStatuses: seq<StatusCode>
    var docViewTop: int
    var docViewBottom: int
    var startIdx: nat
    var visibleElementsFound: bool
    var dispatched: seq<Event>

    /** The viewport the last calcDocViewOffsets recorded. */
    function CurrentView(): View
      reads this`docViewTop, this`docViewBottom
    {
      View(docViewTop, docViewBottom)
    }

    /**
     * Between cycles: at least one element and one current status per element.
     * The previous table is not part of it: every cycle rebuilds it first, and
     * the constructor's first cycle runs while it is still undefined.
     */
    ghost predicate Valid()
      reads this
    {
      |elements| >= 1 && |visibilityStatuses| == |elements|
    }

    /**
     * Build the tracker and run the first cycle. The first statuses table
     * built here becomes the previous table of that cycle, so the cycle
     * compares against blank statuses.
     */
    constructor (elems: seq<Element>, scrollTop: int, windowHeight: int)
      requires |elems| >= 1
      ensures Valid() && elements == elems
      ensures prevVisibilityStatuses == Blank(|elems|)
      ensures CurrentView() == View(scrollTop, scrollTop + windowHeight)
      ensures Outcome(visibilityStatuses, startIdx, visibleElementsFound) == Cycle(elements, prevVisibilityStatuses, CurrentView())
      ensures dispatched == ChangeEvents(prevVisibilityStatuses, visibilityStatuses, |elements|)
    {
      elements := elems;
      visibilityStatuses := [];
      prevVisibilityStatuses := [];
      dispatched := [];
      new;
      InitVisibilityStatuses();
      DetectElementStatuses(scrollTop, windowHeight);
      EmptyLogPrefix(ChangeEvents(prevVisibilityStatuses, visibilityStatuses, |elements|));
    }

    /** The current table becomes the previous one; every element gets a fresh status. */
    method InitVisibilityStatuses()
      modifies this`visibilityStatuses, this`prevVisibilityStatuses
      ensures prevVisibilityStatuses == old(visibilityStatuses)
      ensures visibilityStatuses == Blank(|elements|)
      ensures unchanged(this`dispatched)
    {
      prevVisibilityStatuses := visibilityStatuses;
      var table: seq<StatusCode> := [];
      var i := 0;
      while i < |elements|
        invariant 0 <= i <= |elements|
        invariant table == Blank(i)
      {
        table := table + [BLANK];
        i := i + 1;
      }
      visibilityStatuses := table;
    }

    /** Record the viewport: from the scroll offset down by the window height. */
    method CalcDocViewOffsets(scrollTop: int, windowHeight: int)
      modifies this`docViewTop, this`docViewBottom
      ensures CurrentView() == View(scrollTop, scrollTop + windowHeight)
      ensures unchanged(this`visibilityStatuses, this`prevVisibilityStatuses, this`dispatched)
    {
      docViewTop := scrollTop;
      docViewBottom := docViewTop + windowHeight;
    }

    /** OR the geometric flags of element i into its status. */
    method SetInitialVisibilityStatus(i: nat)
      requires i < |elements| && |visibilityStatuses| == |elements|
      modifies this`visibilityStatuses
      ensures visibilityStatuses == old(visibilityStatuses)[i := ClassifyInto(old(visibilityStatuses)[i], elements[i], CurrentView())]
      ensures unchanged(this`prevVisibilityStatuses, this`dispatched, this`docViewTop, this`docViewBottom, this`startIdx, this`visibleElementsFound)
    {
      var c := visibilityStatuses[i];
      var e := elements[i];
      var elemTop := e.top;
      var elemBottom := elemTop + e.height;
      var isVisible := elemBottom >= docViewTop && elemTop <= docViewBottom
        && elemBottom <= docViewBottom && elemTop >= docViewTop;
      if isVisible {
        c := c | STATUS_VISIBLE;
      }
      var isPartiallyVisible := elemBottom >= docViewTop && elemTop <= docViewBottom;
      if isPartiallyVisible {
        c := c | STATUS_PARTIALLY_VISIBLE;
      }
      visibilityStatuses := visibilityStatuses[i := c];
    }

    /**
     * Find the first element the previous cycle saw (or 0), then walk back
     * while the element is partially visible now, classifying every element
     * the walk visits.
     */
    method DetermineStartIndex()
      requires |elements| >= 1 && |prevVisibilityStatuses| == |elements|
      requires visibilityStatuses == Blank(|elements|)
      modifies this`startIdx, this`visibilityStatuses
      ensures startIdx == WalkBack(elements, CurrentView(), StartHint(prevVisibilityStatuses))
      ensures visibilityStatuses ==
                ClassifyRange(Blank(|elements|), elements, CurrentView(), startIdx, StartHint(prevVisibilityStatuses) + 1)
      ensures unchanged(this`prevVisibilityStatuses, this`dispatched, this`docViewTop, this`docViewBottom)
    {
      FindStartHint();
      WalkStartBack();
    }

    /** The first part of determineStartIndex: startIdx becomes the first index the previous cycle saw, or 0. */
    method FindStartHint()
      requires |elements| >= 1 && |prevVisibilityStatuses| == |elements|
      modifies this`startIdx
      ensures startIdx == StartHint(prevVisibilityStatuses)
    {
      var n := |elements|;
      startIdx := 0;
      var i := 0;
      while i < n
        invariant 0 <= i <= n && startIdx == 0
        invariant forall j :: 0 <= j < i ==> !Seen(prevVisibilityStatuses[j])
      {
        if HasFlag(prevVisibilityStatuses[i], Visible) || HasFlag(prevVisibilityStatuses[i], PartiallyVisible) {
          startIdx := i;
          break;
        }
        i := i + 1;
      }
    }

    /**
     * The second part of determineStartIndex: classify the element at
     * startIdx and step down while it is partially visible and startIdx is
     * positive.
     */
    method WalkStartBack()
      requires startIdx < |elements| && visibilityStatuses == Blank(|elements|)
      modifies this`startIdx, this`visibilityStatuses
      ensures startIdx == WalkBack(elements, CurrentView(), old(startIdx))
      ensures visibilityStatuses == ClassifyRange(Blank(|elements|), elements, CurrentView(), startIdx, old(startIdx) + 1)
    {
      var n := |elements|;
      var v := CurrentView();
      ghost var h := startIdx;
      while true
        invariant startIdx <= h < n && CurrentView() == v
        invariant WalkBack(elements, v, startIdx) == WalkBack(elements, v, h)
        invariant visibilityStatuses == ClassifyRange(Blank(n), elements, v, startIdx + 1, h + 1)
        decreases startIdx
      {
        ClassifyOneMore(visibilityStatuses, elements, v, startIdx, h);
        SetInitialVisibilityStatus(startIdx);
        if HasFlag(visibilityStatuses[startIdx], PartiallyVisible) && startIdx > 0 {
          startIdx := startIdx - 1;
        } else {
          break;
        }
      }
    }

    /**
     * Classify forward from startIdx until the first element that is not
     * partially visible after one that is, and note whether any element was
     * fully visible. It runs right after determineStartIndex, whose walk has
     * already classified the entries from startIdx up to the hint.
     */
    method SearchForVisibleElements(ghost h: nat)
      requires startIdx <= h < |elements| && h < ScanStop(elements, CurrentView(), startIdx)
      requires visibilityStatuses == ClassifyRange(Blank(|elements|), elements, CurrentView(), startIdx, h + 1)
      modifies this`visibilityStatuses, this`visibleElementsFound
      ensures visibilityStatuses ==
                ClassifyRange(Blank(|elements|), elements, CurrentView(), startIdx, ScanStop(elements, CurrentView(), startIdx))
      ensures visibleElementsFound == AnyVisible(elements, CurrentView(), startIdx, ScanStop(elements, CurrentView(), startIdx))
    {
      var n := |elements|;
      var v := CurrentView();
      ghost var u := FirstCovered(elements, v, startIdx, true);
      ghost var stop := ScanStop(elements, v, startIdx);
      assert stop == FirstCovered(elements, v, u, false);
      visibleElementsFound := false;
      var foundSomethingAtLeastPartiallyVisible := false;
      var i := startIdx;
      while i < n
        invariant startIdx <= i <= n && CurrentView() == v
        invariant foundSomethingAtLeastPartiallyVisible <==> u < i
        invariant i <= stop
        invariant visibilityStatuses == ClassifyRange(Blank(n), elements, v, startIdx, if i <= h then h + 1 else i)
        invariant visibleElementsFound == AnyVisible(elements, v, startIdx, i)
      {
        ScanStep(visibilityStatuses, elements, v, startIdx, h, i);
        ScanBound(elements, v, startIdx, i);
        SetInitialVisibilityStatus(i);
        var c := visibilityStatuses[i];
        assert c == Classify(elements[i], v);
        if HasFlag(c, PartiallyVisible) || HasFlag(c, Visible) {
          foundSomethingAtLeastPartiallyVisible := true;
          if HasFlag(c, Visible) {
            visibleElementsFound := true;
          }
        } else if foundSomethingAtLeastPartiallyVisible {
          ClassifyRangeDrop(elements, v, startIdx, i);
          assert i == stop;
          break;
        }
        i := i + 1;
      }
      assert i == stop;
    }

    /** Mark the first visible and the first partially visible element at or after startIdx. */
    method SearchForFirstElements()
      requires startIdx <= |visibilityStatuses|
      modifies this`visibilityStatuses
      ensures visibilityStatuses == MarkFirst(old(visibilityStatuses), startIdx)
      ensures unchanged(this`prevVisibilityStatuses, this`dispatched, this`docViewTop, this`docViewBottom, this`startIdx, this`visibleElementsFound)
    {
      ghost var t := visibilityStatuses;
      ghost var fv := FirstWith(t, startIdx, Visible);
      ghost var fp := FirstWith(t, startIdx, PartiallyVisible);
      var n := |visibilityStatuses|;
      var firstVisibleFound := false;
      var firstPartiallyVisibleFound := false;
      var i := startIdx;
      while i < n
        invariant startIdx <= i <= n && |visibilityStatuses| == n
        invariant firstVisibleFound <==> fv < i
        invariant firstPartiallyVisibleFound <==> fp < i
        invariant visibilityStatuses ==
                    MarkAt(MarkAt(t, if fv < i then fv else -1, FirstVisible), if fp < i then fp else -1, FirstPartiallyVisible)
      {
        if !firstVisibleFound && HasFlag(visibilityStatuses[i], Visible) {
          visibilityStatuses := visibilityStatuses[i := SetFlag(visibilityStatuses[i], FirstVisible)];
          firstVisibleFound := true;
        }
        if !firstPartiallyVisibleFound && HasFlag(visibilityStatuses[i], PartiallyVisible) {
          visibilityStatuses := visibilityStatuses[i := SetFlag(visibilityStatuses[i], FirstPartiallyVisible)];
          firstPartiallyVisibleFound := true;
        }
        if firstVisibleFound && firstPartiallyVisibleFound {
          break;
        }
        i := i + 1;
      }
    }

    /** Mark the last visible and the last partially visible element of the whole table. */
    method SearchForLastElements()
      modifies this`visibilityStatuses
      ensures visibilityStatuses == MarkLast(old(visibilityStatuses))
      ensures unchanged(this`prevVisibilityStatuses, this`dispatched, this`docViewTop, this`docViewBottom, this`startIdx, this`visibleElementsFound)
    {
      ghost var t := visibilityStatuses;
      var n := |visibilityStatuses|;
      ghost var lv := LastWith(t, n, Visible);
      ghost var lp := LastWith(t, n, PartiallyVisible);
      var lastVisibleFound := false;
      var lastPartiallyVisibleFound := false;
      var i: int := n - 1;
      while i >= 0
        invariant -1 <= i < n && |visibilityStatuses| == n
        invariant lastVisibleFound <==> lv > i
        invariant lastPartiallyVisibleFound <==> lp > i
        invariant visibilityStatuses ==
                    MarkAt(MarkAt(t, if lv > i then lv else -1, LastVisible), if lp > i then lp else -1, LastPartiallyVisible)
      {
        if !lastVisibleFound && HasFlag(visibilityStatuses[i], Visible) {
          visibilityStatuses := visibilityStatuses[i := SetFlag(visibilityStatuses[i], LastVisible)];
          lastVisibleFound := true;
        }
        if !lastPartiallyVisibleFound && HasFlag(visibilityStatuses[i], PartiallyVisible) {
          visibilityStatuses := visibilityStatuses[i := SetFlag(visibilityStatuses[i], LastPartiallyVisible)];
          lastPartiallyVisibleFound := true;
        }
        if lastVisibleFound && lastPartiallyVisibleFound {
          break;
        }
        i := i - 1;
      }
    }

    /** When no element is fully visible, mark every partially visible element at or after startIdx. */
    method SetSiblingStatusForPartiallyVisibleElements()
      modifies this`visibilityStatuses
      ensures visibilityStatuses == MarkNoSiblings(old(visibilityStatuses), startIdx, visibleElementsFound)
      ensures unchanged(this`prevVisibilityStatuses, this`dispatched, this`docViewTop, this`docViewBottom, this`startIdx, this`visibleElementsFound)
    {
      ghost var t := visibilityStatuses;
      if !visibleElementsFound {
        var n := |visibilityStatuses|;
        var i := startIdx;
        while i < n
          invariant |visibilityStatuses| == n
          invariant forall j :: 0 <= j < n ==>
                      visibilityStatuses[j] ==
                        (if startIdx <= j < i && HasFlag(t[j], PartiallyVisible)
                         then SetFlag(t[j], PartiallyVisibleWithNoVisibleSiblings) else t[j])
        {
          if HasFlag(visibilityStatuses[i], PartiallyVisible) {
            visibilityStatuses := visibilityStatuses[i := SetFlag(visibilityStatuses[i], PartiallyVisibleWithNoVisibleSiblings)];
          }
          i := i + 1;
        }
      }
    }

    /** Log one change event, in index order, for every element whose code differs from the previous cycle's. */
    method TriggerStatusChangeEvents()
      requires |visibilityStatuses| == |elements| && |prevVisibilityStatuses| == |elements|
      modifies this`dispatched
      ensures dispatched == old(dispatched) + ChangeEvents(prevVisibilityStatuses, visibilityStatuses, |elements|)
      ensures unchanged(this`visibilityStatuses, this`prevVisibilityStatuses, this`docViewTop, this`docViewBottom, this`startIdx, this`visibleElementsFound)
    {
      var i := 0;
      while i < |elements|
        invariant 0 <= i <= |elements|
        invariant dispatched == old(dispatched) + ChangeEvents(prevVisibilityStatuses, visibilityStatuses, i)
      {
        if visibilityStatuses[i] != prevVisibilityStatuses[i] {
          dispatched := dispatched + [StatusChange(i, visibilityStatuses[i])];
        }
        i := i + 1;
      }
    }

    /** One cycle, run at construction and on every scroll. */
    method DetectElementStatuses(scrollTop: int, windowHeight: int)
      requires Valid()
      modifies this`visibilityStatuses, this`prevVisibilityStatuses, this`docViewTop, this`docViewBottom,
               this`startIdx, this`visibleElementsFound, this`dispatched
      ensures Valid()
      ensures prevVisibilityStatuses == old(visibilityStatuses)
      ensures CurrentView() == View(scrollTop, scrollTop + windowHeight)
      ensures Outcome(visibilityStatuses, startIdx, visibleElementsFound) == Cycle(elements, old(visibilityStatuses), CurrentView())
      ensures dispatched == old(dispatched) + ChangeEvents(old(visibilityStatuses), visibilityStatuses, |elements|)
    {
      InitVisibilityStatuses();
      CalcDocViewOffsets(scrollTop, windowHeight);
      DetermineStartIndex();
      CycleProperties.HintBeforeStop(elements, CurrentView(), StartHint(prevVisibilityStatuses));
      label Started:
      SearchForVisibleElements(StartHint(prevVisibilityStatuses));
      assert unchanged@Started(this`prevVisibilityStatuses, this`dispatched, this`docViewTop, this`docViewBottom, this`startIdx);
      label Scanned:
      SearchForFirstElements();
      label FirstMarked:
      SearchForLastElements();
      label LastMarked:
      SetSiblingStatusForPartiallyVisibleElements();
      CycleSteps(elements, prevVisibilityStatuses, CurrentView(), startIdx, old@Scanned(visibilityStatuses), visibleElementsFound,
                 old@FirstMarked(visibilityStatuses), old@LastMarked(visibilityStatuses), visibilityStatuses);
      TriggerStatusChangeEvents();
    }
  }

  /** A cycle spelled out step by step, as detectElementStatuses runs it. */
  lemma CycleSteps(elems: seq<Element>, prev: seq<StatusCode>, v: View, s: nat, t0: seq<StatusCode>, found: bool,
                   t1: seq<StatusCode>, t2: seq<StatusCode>, t3: seq<StatusCode>)
    requires |elems| >= 1 && |prev| == |elems|
    requires s == WalkBack(elems, v, StartHint(prev))
    requires t0 == ClassifyRange(Blank(|elems|), elems, v, s, ScanStop(elems, v, s))
    requires found == AnyVisible(elems, v, s, ScanStop(elems, v, s))
    requires t1 == MarkFirst(t0, s) && t2 == MarkLast(t1) && t3 == MarkNoSiblings(t2, s, found)
    ensures Cycle(elems, prev, v) == Outcome(t3, s, found)
  {
  }

  // ---------------------------------------------------------------------
  // Helper lemmas for the loops

  /** The log of a fresh tracker is empty, so after its first cycle it holds just that cycle's events. */
  lemma EmptyLogPrefix(events: seq<Event>)
    ensures [] + events == events
  {
  }

  /** One more classified index at the low end of a classified range; the new entry is the geometric code. */
  lemma ClassifyOneMore(t: seq<StatusCode>, elems: seq<Element>, v: View, s: nat, h: nat)
    requires s <= h < |elems|
    requires t == ClassifyRange(Blank(|elems|), elems, v, s + 1, h + 1)
    ensures t[s := ClassifyInto(t[s], elems[s], v)] == ClassifyRange(Blank(|elems|), elems, v, s, h + 1)
    ensures HasFlag(ClassifyInto(t[s], elems[s], v), PartiallyVisible) <==> IsPartiallyVisibleIn(elems[s], v)
  {
  }

  /**
   * One step of the forward scan over the table the walk left: the entry
   * at i becomes (or already was) the geometric code.
   */
  lemma ScanStep(t: seq<StatusCode>, elems: seq<Element>, v: View, s: nat, h: nat, i: nat)
    requires s <= i < |elems| && h < |elems|
    requires t == ClassifyRange(Blank(|elems|), elems, v, s, if i <= h then h + 1 else i)
    ensures ClassifyInto(t[i], elems[i], v) == Classify(elems[i], v)
    ensures t[i := Classify(elems[i], v)] ==
            ClassifyRange(Blank(|elems|), elems, v, s, if i + 1 <= h then h + 1 else i + 1)
    ensures HasFlag(Classify(elems[i], v), Visible) <==> IsVisibleIn(elems[i], v)
    ensures HasFlag(Classify(elems[i], v), PartiallyVisible) <==> IsPartiallyVisibleIn(elems[i], v)
    ensures AnyVisible(elems, v, s, i + 1) == (AnyVisible(elems, v, s, i) || IsVisibleIn(elems[i], v))
  {
    ClassifyTwice(elems[i], v);
  }

  /** Where index i stands relative to the first partially visible element u and the stop of the scan from s. */
  lemma ScanBound(elems: seq<Element>, v: View, s: nat, i: nat)
    requires s <= i < |elems| && i <= ScanStop(elems, v, s)
    ensures var u := FirstCovered(elems, v, s, true);
      (IsPartiallyVisibleIn(elems[i], v) ==> u <= i && i < ScanStop(elems, v, s)) &&
      (u == i ==> IsPartiallyVisibleIn(elems[i], v)) &&
      (i < u ==> i < ScanStop(elems, v, s)) &&
      (u < i && !IsPartiallyVisibleIn(elems[i], v) ==> i == ScanStop(elems, v, s))
  {
    var u := FirstCovered(elems, v, s, true);
    assert ScanStop(elems, v, s) == FirstCovered(elems, v, u, false);
  }

  /** Classifying an element that is not partially visible leaves it blank. */
  lemma ClassifyRangeDrop(elems: seq<Element>, v: View, s: nat, i: nat)
    requires s <= i < |elems| && !IsPartiallyVisibleIn(elems[i], v)
    ensures ClassifyRange(Blank(|elems|), elems, v, s, i + 1) == ClassifyRange(Blank(|elems|), elems, v, s, i)
  {
  }
}
