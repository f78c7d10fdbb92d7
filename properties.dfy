/**
 * What one classification cycle guarantees: which flags each element ends
 * up with, that the first/last marks are unique and sit at the extreme
 * qualifying indices, when the no-visible-siblings flag is set, which
 * elements are notified, and when a repeated cycle changes nothing.
 */
module CycleProperties {
  import opened Status
  import opened Classifier

  // ---------------------------------------------------------------------
  // Change events

  /** An index gets an event exactly when its code changed. */
  lemma ChangeEventsExact(prev: seq<StatusCode>, cur: seq<StatusCode>, i: nat)
    requires |prev| == |cur| && i < |cur|
    ensures (exists j :: 0 <= j < |ChangeEvents(prev, cur, |cur|)| && ChangeEvents(prev, cur, |cur|)[j].index == i)
            <==> prev[i] != cur[i]
  {
    ChangeEventsSound(prev, cur, |cur|);
    if prev[i] != cur[i] {
      ChangeEventsComplete(prev, cur, |cur|, i);
    }
  }

  // ---------------------------------------------------------------------
  // Helpers about the search functions

  lemma {:induction false} FirstWithSameFlags(t: seq<StatusCode>, u: seq<StatusCode>, from: nat, f: Flag)
    requires from <= |t| == |u|
    requires forall j :: from <= j < |t| ==> (HasFlag(t[j], f) <==> HasFlag(u[j], f))
    ensures FirstWith(t, from, f) == FirstWith(u, from, f)
    decreases |t| - from
  {
    if from < |t| && !HasFlag(t[from], f) {
      FirstWithSameFlags(t, u, from + 1, f);
    }
  }

  lemma {:induction false} LastWithSameFlags(t: seq<StatusCode>, u: seq<StatusCode>, hi: nat, f: Flag)
    requires hi <= |t| == |u|
    requires forall j :: 0 <= j < hi ==> (HasFlag(t[j], f) <==> HasFlag(u[j], f))
    ensures LastWith(t, hi, f) == LastWith(u, hi, f)
  {
    if hi > 0 && !HasFlag(t[hi - 1], f) {
      LastWithSameFlags(t, u, hi - 1, f);
    }
  }

  /** Starting the search at b instead of a changes nothing when [a, b) has no flag f. */
  lemma FirstWithSkip(t: seq<StatusCode>, a: nat, b: nat, f: Flag)
    requires a <= b <= |t|
    requires forall j :: a <= j < b ==> !HasFlag(t[j], f)
    ensures FirstWith(t, a, f) == FirstWith(t, b, f)
  {
  }

  lemma FirstCoveredSkip(elems: seq<Element>, v: View, a: nat, b: nat, covered: bool)
    requires a <= b <= |elems|
    requires forall j :: a <= j < b ==> IsPartiallyVisibleIn(elems[j], v) != covered
    ensures FirstCovered(elems, v, a, covered) == FirstCovered(elems, v, b, covered)
  {
  }

  // ---------------------------------------------------------------------
  // The table after the scan

  /** The table right after the forward scan: geometric flags on [s, stop), blank elsewhere. */
  lemma ClassifiedTable(elems: seq<Element>, v: View, s: nat, stop: nat)
    requires s <= stop <= |elems|
    ensures var t := ClassifyRange(Blank(|elems|), elems, v, s, stop);
      |t| == |elems| &&
      (forall i :: 0 <= i < |t| ==> WellFormed(t[i])) &&
      (forall i :: 0 <= i < |t| ==> (HasFlag(t[i], Visible) <==> s <= i < stop && IsVisibleIn(elems[i], v))) &&
      (forall i :: 0 <= i < |t| ==> (HasFlag(t[i], PartiallyVisible) <==> s <= i < stop && IsPartiallyVisibleIn(elems[i], v))) &&
      (forall i, g :: 0 <= i < |t| && g != Visible && g != PartiallyVisible ==> !HasFlag(t[i], g)) &&
      (forall i :: 0 <= i < |t| && !(s <= i < stop) ==> t[i] == BLANK)
  {
    var t := ClassifyRange(Blank(|elems|), elems, v, s, stop);
    forall i | 0 <= i < |t|
      ensures t[i] == if s <= i < stop then Classify(elems[i], v) else BLANK
    {
    }
  }

  lemma ClassifiedNoMarks(elems: seq<Element>, v: View, s: nat, stop: nat)
    ensures var t := ClassifyRange(Blank(|elems|), elems, v, s, stop);
      forall i, g :: 0 <= i < |t| && g != Visible && g != PartiallyVisible ==> !HasFlag(t[i], g)
  {
  }

  /**
   * Every flag of every code after a cycle started at s, in terms of the
   * table t0 the forward scan produced.
   */
  lemma ScanMarks(elems: seq<Element>, v: View, s: nat)
    requires s < |elems|
    ensures var stop := ScanStop(elems, v, s);
      var t0 := ClassifyRange(Blank(|elems|), elems, v, s, stop);
      var o := ScanFrom(elems, v, s);
      var st := o.statuses;
      |st| == |elems| &&
      (forall i :: 0 <= i < |st| ==> WellFormed(st[i])) &&
      (forall i :: 0 <= i < |st| ==> (HasFlag(st[i], Visible) <==> HasFlag(t0[i], Visible))) &&
      (forall i :: 0 <= i < |st| ==> (HasFlag(st[i], PartiallyVisible) <==> HasFlag(t0[i], PartiallyVisible))) &&
      (forall i :: 0 <= i < |st| ==> (HasFlag(st[i], FirstVisible) <==> i == FirstWith(t0, s, Visible))) &&
      (forall i :: 0 <= i < |st| ==> (HasFlag(st[i], FirstPartiallyVisible) <==> i == FirstWith(t0, s, PartiallyVisible))) &&
      (forall i :: 0 <= i < |st| ==> (HasFlag(st[i], LastVisible) <==> i == LastWith(t0, |t0|, Visible))) &&
      (forall i :: 0 <= i < |st| ==> (HasFlag(st[i], LastPartiallyVisible) <==> i == LastWith(t0, |t0|, PartiallyVisible))) &&
      (forall i :: 0 <= i < |st| ==>
         (HasFlag(st[i], PartiallyVisibleWithNoVisibleSiblings) <==>
            !o.visibleElementsFound && s <= i && HasFlag(t0[i], PartiallyVisible))) &&
      (forall i :: 0 <= i < |st| && !Seen(t0[i]) ==> st[i] == t0[i])
  {
    var n := |elems|;
    var stop := ScanStop(elems, v, s);
    var found := AnyVisible(elems, v, s, stop);
    var t0 := ClassifyRange(Blank(n), elems, v, s, stop);
    ClassifiedNoMarks(elems, v, s, stop);
    var t1 := MarkFirst(t0, s);
    var t2 := MarkLast(t1);
    var t3 := MarkNoSiblings(t2, s, found);
    assert t3 == ScanFrom(elems, v, s).statuses;
    LayerFlags(t0, t1, t2, t3, s, found);
  }

  /** The flags of the three marking layers, stated for any starting table t0 without marks. */
  lemma LayerFlags(t0: seq<StatusCode>, t1: seq<StatusCode>, t2: seq<StatusCode>, t3: seq<StatusCode>, s: nat, found: bool)
    requires s <= |t0|
    requires forall i, g :: 0 <= i < |t0| && g != Visible && g != PartiallyVisible ==> !HasFlag(t0[i], g)
    requires t1 == MarkFirst(t0, s) && t2 == MarkLast(t1) && t3 == MarkNoSiblings(t2, s, found)
    ensures |t3| == |t0|
    ensures forall i :: 0 <= i < |t0| && WellFormed(t0[i]) ==> WellFormed(t3[i])
    ensures forall i :: 0 <= i < |t0| ==> (HasFlag(t3[i], Visible) <==> HasFlag(t0[i], Visible))
    ensures forall i :: 0 <= i < |t0| ==> (HasFlag(t3[i], PartiallyVisible) <==> HasFlag(t0[i], PartiallyVisible))
    ensures forall i :: 0 <= i < |t0| ==> (HasFlag(t3[i], FirstVisible) <==> i == FirstWith(t0, s, Visible))
    ensures forall i :: 0 <= i < |t0| ==> (HasFlag(t3[i], FirstPartiallyVisible) <==> i == FirstWith(t0, s, PartiallyVisible))
    ensures forall i :: 0 <= i < |t0| ==> (HasFlag(t3[i], LastVisible) <==> i == LastWith(t0, |t0|, Visible))
    ensures forall i :: 0 <= i < |t0| ==> (HasFlag(t3[i], LastPartiallyVisible) <==> i == LastWith(t0, |t0|, PartiallyVisible))
    ensures forall i :: 0 <= i < |t0| ==>
              (HasFlag(t3[i], PartiallyVisibleWithNoVisibleSiblings) <==> !found && s <= i && HasFlag(t0[i], PartiallyVisible))
    ensures forall i :: 0 <= i < |t0| && !Seen(t0[i]) ==> t3[i] == t0[i]
  {
    MarkFirstFlags(t0, s);
    LastWithSameFlags(t1, t0, |t0|, Visible);
    LastWithSameFlags(t1, t0, |t0|, PartiallyVisible);
    MarkLastFlags(t1);
    MarkNoSiblingsFlags(t2, s, found);
    ComposeLayers(t0, t1, t2, t3, s, found, FirstWith(t0, s, Visible), FirstWith(t0, s, PartiallyVisible),
                  LastWith(t0, |t0|, Visible), LastWith(t0, |t0|, PartiallyVisible));
  }

  /** LayerFlags with each layer described only by its flags. */
  lemma ComposeLayers(t0: seq<StatusCode>, t1: seq<StatusCode>, t2: seq<StatusCode>, t3: seq<StatusCode>, s: nat, found: bool,
                      fv: int, fp: int, lv: int, lp: int)
    requires |t1| == |t0| && |t2| == |t0| && |t3| == |t0|
    requires forall i, g :: 0 <= i < |t0| && g != Visible && g != PartiallyVisible ==> !HasFlag(t0[i], g)
    requires forall i, g :: 0 <= i < |t0| && g != FirstVisible && g != FirstPartiallyVisible ==> (HasFlag(t1[i], g) <==> HasFlag(t0[i], g))
    requires forall i :: 0 <= i < |t0| ==> (HasFlag(t1[i], FirstVisible) <==> HasFlag(t0[i], FirstVisible) || i == fv)
    requires forall i :: 0 <= i < |t0| ==> (HasFlag(t1[i], FirstPartiallyVisible) <==> HasFlag(t0[i], FirstPartiallyVisible) || i == fp)
    requires forall i :: 0 <= i < |t0| && !Seen(t0[i]) ==> t1[i] == t0[i]
    requires forall i :: 0 <= i < |t0| && WellFormed(t0[i]) ==> WellFormed(t1[i])
    requires forall i, g :: 0 <= i < |t0| && g != LastVisible && g != LastPartiallyVisible ==> (HasFlag(t2[i], g) <==> HasFlag(t1[i], g))
    requires forall i :: 0 <= i < |t0| ==> (HasFlag(t2[i], LastVisible) <==> HasFlag(t1[i], LastVisible) || i == lv)
    requires forall i :: 0 <= i < |t0| ==> (HasFlag(t2[i], LastPartiallyVisible) <==> HasFlag(t1[i], LastPartiallyVisible) || i == lp)
    requires forall i :: 0 <= i < |t0| && !Seen(t1[i]) ==> t2[i] == t1[i]
    requires forall i :: 0 <= i < |t0| && WellFormed(t1[i]) ==> WellFormed(t2[i])
    requires forall i, g :: 0 <= i < |t0| ==>
               (HasFlag(t3[i], g) <==>
                  (HasFlag(t2[i], g) ||
                   (g == PartiallyVisibleWithNoVisibleSiblings && !found && s <= i && HasFlag(t2[i], PartiallyVisible))))
    requires forall i :: 0 <= i < |t0| && (found || i < s || !HasFlag(t2[i], PartiallyVisible)) ==> t3[i] == t2[i]
    requires forall i :: 0 <= i < |t0| && WellFormed(t2[i]) ==> WellFormed(t3[i])
    ensures forall i :: 0 <= i < |t0| && WellFormed(t0[i]) ==> WellFormed(t3[i])
    ensures forall i :: 0 <= i < |t0| ==> (HasFlag(t3[i], Visible) <==> HasFlag(t0[i], Visible))
    ensures forall i :: 0 <= i < |t0| ==> (HasFlag(t3[i], PartiallyVisible) <==> HasFlag(t0[i], PartiallyVisible))
    ensures forall i :: 0 <= i < |t0| ==> (HasFlag(t3[i], FirstVisible) <==> i == fv)
    ensures forall i :: 0 <= i < |t0| ==> (HasFlag(t3[i], FirstPartiallyVisible) <==> i == fp)
    ensures forall i :: 0 <= i < |t0| ==> (HasFlag(t3[i], LastVisible) <==> i == lv)
    ensures forall i :: 0 <= i < |t0| ==> (HasFlag(t3[i], LastPartiallyVisible) <==> i == lp)
    ensures forall i :: 0 <= i < |t0| ==>
              (HasFlag(t3[i], PartiallyVisibleWithNoVisibleSiblings) <==> !found && s <= i && HasFlag(t0[i], PartiallyVisible))
    ensures forall i :: 0 <= i < |t0| && !Seen(t0[i]) ==> t3[i] == t0[i]
  {
  }

  lemma MarkFirstFlags(t: seq<StatusCode>, from: nat)
    requires from <= |t|
    ensures var r := MarkFirst(t, from);
      |r| == |t| &&
      (forall i, g :: 0 <= i < |t| && g != FirstVisible && g != FirstPartiallyVisible ==> (HasFlag(r[i], g) <==> HasFlag(t[i], g))) &&
      (forall i :: 0 <= i < |t| ==> (HasFlag(r[i], FirstVisible) <==> HasFlag(t[i], FirstVisible) || i == FirstWith(t, from, Visible))) &&
      (forall i :: 0 <= i < |t| ==>
         (HasFlag(r[i], FirstPartiallyVisible) <==> HasFlag(t[i], FirstPartiallyVisible) || i == FirstWith(t, from, PartiallyVisible))) &&
      (forall i :: 0 <= i < |t| && !Seen(t[i]) ==> r[i] == t[i]) &&
      (forall i :: 0 <= i < |t| && WellFormed(t[i]) ==> WellFormed(r[i]))
  {
    var fv := FirstWith(t, from, Visible);
    var fp := FirstWith(t, from, PartiallyVisible);
    var ta := MarkAt(t, fv, FirstVisible);
    MarkAtFlags(t, fv, FirstVisible);
    MarkAtFlags(ta, fp, FirstPartiallyVisible);
    assert MarkFirst(t, from) == MarkAt(ta, fp, FirstPartiallyVisible);
  }

  lemma MarkLastFlags(t: seq<StatusCode>)
    ensures var r := MarkLast(t);
      |r| == |t| &&
      (forall i, g :: 0 <= i < |t| && g != LastVisible && g != LastPartiallyVisible ==> (HasFlag(r[i], g) <==> HasFlag(t[i], g))) &&
      (forall i :: 0 <= i < |t| ==> (HasFlag(r[i], LastVisible) <==> HasFlag(t[i], LastVisible) || i == LastWith(t, |t|, Visible))) &&
      (forall i :: 0 <= i < |t| ==>
         (HasFlag(r[i], LastPartiallyVisible) <==> HasFlag(t[i], LastPartiallyVisible) || i == LastWith(t, |t|, PartiallyVisible))) &&
      (forall i :: 0 <= i < |t| && !Seen(t[i]) ==> r[i] == t[i]) &&
      (forall i :: 0 <= i < |t| && WellFormed(t[i]) ==> WellFormed(r[i]))
  {
    var lv := LastWith(t, |t|, Visible);
    var lp := LastWith(t, |t|, PartiallyVisible);
    var ta := MarkAt(t, lv, LastVisible);
    MarkAtFlags(t, lv, LastVisible);
    MarkAtFlags(ta, lp, LastPartiallyVisible);
    assert MarkLast(t) == MarkAt(ta, lp, LastPartiallyVisible);
  }

  // ---------------------------------------------------------------------
  // Properties of a cycle

  /**
   * After a cycle, an element carries visible / partiallyVisible exactly
   * when it lies in the scanned range [startIdx, stop) and satisfies the
   * geometric test; every element outside that range is blank.
   */
  lemma CycleClassification(elems: seq<Element>, prev: seq<StatusCode>, v: View)
    requires |elems| >= 1 && |prev| == |elems|
    ensures var o := Cycle(elems, prev, v);
      var stop := ScanStop(elems, v, o.startIdx);
      |o.statuses| == |elems| &&
      (forall i :: 0 <= i < |elems| ==> WellFormed(o.statuses[i])) &&
      (forall i :: 0 <= i < |elems| ==>
         (HasFlag(o.statuses[i], Visible) <==> o.startIdx <= i < stop && IsVisibleIn(elems[i], v))) &&
      (forall i :: 0 <= i < |elems| ==>
         (HasFlag(o.statuses[i], PartiallyVisible) <==> o.startIdx <= i < stop && IsPartiallyVisibleIn(elems[i], v))) &&
      (forall i :: 0 <= i < |elems| ==> HasFlag(o.statuses[i], Visible) ==> HasFlag(o.statuses[i], PartiallyVisible)) &&
      (forall i :: 0 <= i < |elems| && !(o.startIdx <= i < stop) ==> o.statuses[i] == BLANK)
  {
    var s := WalkBack(elems, v, StartHint(prev));
    assert Cycle(elems, prev, v) == ScanFrom(elems, v, s);
    ScanMarks(elems, v, s);
    ClassifiedTable(elems, v, s, ScanStop(elems, v, s));
  }

  /**
   * The forward scan covers the hint: every index from startIdx up to the
   * hint is classified, and the scanned range is one block of elements
   * that are not partially visible followed by one block that are.
   */
  lemma CycleScanRange(elems: seq<Element>, prev: seq<StatusCode>, v: View)
    requires |elems| >= 1 && |prev| == |elems|
    ensures var o := Cycle(elems, prev, v);
      var stop := ScanStop(elems, v, o.startIdx);
      o.startIdx <= StartHint(prev) < stop &&
      (stop < |elems| ==> !IsPartiallyVisibleIn(elems[stop], v)) &&
      (forall i, j :: o.startIdx <= i <= j < stop && IsPartiallyVisibleIn(elems[i], v) ==> IsPartiallyVisibleIn(elems[j], v)) &&
      (o.visibleElementsFound <==> exists i :: o.startIdx <= i < stop && IsVisibleIn(elems[i], v))
  {
    HintBeforeStop(elems, v, StartHint(prev));
  }

  /** The forward scan from the end of the backward walk gets past the hint. */
  lemma HintBeforeStop(elems: seq<Element>, v: View, h: nat)
    requires h < |elems|
    ensures h < ScanStop(elems, v, WalkBack(elems, v, h))
  {
    var s := WalkBack(elems, v, h);
    var u := FirstCovered(elems, v, s, true);
    assert ScanStop(elems, v, s) == FirstCovered(elems, v, u, false);
    if u <= h {
      assert forall j :: u <= j <= h ==> IsPartiallyVisibleIn(elems[j], v);
    }
  }

  /** `mark` is carried exactly by the least index carrying f. */
  ghost predicate MarksFirst(st: seq<StatusCode>, f: Flag, mark: Flag)
  {
    forall i :: 0 <= i < |st| ==>
      (HasFlag(st[i], mark) <==> HasFlag(st[i], f) && forall j :: 0 <= j < i ==> !HasFlag(st[j], f))
  }

  /** `mark` is carried exactly by the greatest index carrying f. */
  ghost predicate MarksLast(st: seq<StatusCode>, f: Flag, mark: Flag)
  {
    forall i :: 0 <= i < |st| ==>
      (HasFlag(st[i], mark) <==> HasFlag(st[i], f) && forall j :: i < j < |st| ==> !HasFlag(st[j], f))
  }

  /** At most one index carries `mark`. */
  ghost predicate AtMostOne(st: seq<StatusCode>, mark: Flag)
  {
    forall i, j :: 0 <= i < |st| && 0 <= j < |st| && HasFlag(st[i], mark) && HasFlag(st[j], mark) ==> i == j
  }

  /** No index carrying `a` comes after an index carrying `b`. */
  ghost predicate NotAfter(st: seq<StatusCode>, a: Flag, b: Flag)
  {
    forall i, j :: 0 <= i < |st| && 0 <= j < |st| && HasFlag(st[i], a) && HasFlag(st[j], b) ==> i <= j
  }

  /** Every index carrying `a` also carries `b`. */
  ghost predicate Implies(st: seq<StatusCode>, a: Flag, b: Flag)
  {
    forall i :: 0 <= i < |st| && HasFlag(st[i], a) ==> HasFlag(st[i], b)
  }

  /**
   * firstVisible sits exactly on the least index carrying visible, and
   * firstPartiallyVisible on the least index carrying partiallyVisible; so
   * each is carried at most once, and the first partially visible index is
   * at most the first visible one.
   */
  lemma CycleFirstMarks(elems: seq<Element>, prev: seq<StatusCode>, v: View)
    requires |elems| >= 1 && |prev| == |elems|
    ensures var st := Cycle(elems, prev, v).statuses;
      MarksFirst(st, Visible, FirstVisible) && AtMostOne(st, FirstVisible) &&
      MarksFirst(st, PartiallyVisible, FirstPartiallyVisible) && AtMostOne(st, FirstPartiallyVisible) &&
      NotAfter(st, FirstPartiallyVisible, FirstVisible)
  {
    var s := WalkBack(elems, v, StartHint(prev));
    var st := ScanFrom(elems, v, s).statuses;
    ScanFirst(elems, v, s, Visible, FirstVisible);
    ScanFirst(elems, v, s, PartiallyVisible, FirstPartiallyVisible);
    ScanImplies(elems, v, s);
    FirstMarksOrdered(st, Visible, PartiallyVisible, FirstVisible, FirstPartiallyVisible);
  }

  lemma ScanImplies(elems: seq<Element>, v: View, s: nat)
    requires s < |elems|
    ensures Implies(ScanFrom(elems, v, s).statuses, Visible, PartiallyVisible)
  {
    ScanMarks(elems, v, s);
    ClassifiedTable(elems, v, s, ScanStop(elems, v, s));
  }

  lemma ScanFirst(elems: seq<Element>, v: View, s: nat, f: Flag, mark: Flag)
    requires s < |elems|
    requires (f == Visible && mark == FirstVisible) || (f == PartiallyVisible && mark == FirstPartiallyVisible)
    ensures MarksFirst(ScanFrom(elems, v, s).statuses, f, mark) && AtMostOne(ScanFrom(elems, v, s).statuses, mark)
  {
    var stop := ScanStop(elems, v, s);
    var t0 := ClassifyRange(Blank(|elems|), elems, v, s, stop);
    ScanMarks(elems, v, s);
    ClassifiedTable(elems, v, s, stop);
    MarkIsFirst(ScanFrom(elems, v, s).statuses, t0, s, f, mark, FirstWith(t0, s, f));
  }

  lemma ScanLast(elems: seq<Element>, v: View, s: nat, f: Flag, mark: Flag)
    requires s < |elems|
    requires (f == Visible && mark == LastVisible) || (f == PartiallyVisible && mark == LastPartiallyVisible)
    ensures MarksLast(ScanFrom(elems, v, s).statuses, f, mark) && AtMostOne(ScanFrom(elems, v, s).statuses, mark)
  {
    var stop := ScanStop(elems, v, s);
    var t0 := ClassifyRange(Blank(|elems|), elems, v, s, stop);
    ScanMarks(elems, v, s);
    MarkIsLast(ScanFrom(elems, v, s).statuses, t0, f, mark, LastWith(t0, |t0|, f));
  }

  /** A mark placed exactly on the first index at or after s carrying f, in a table with no f below s. */
  lemma MarkIsFirst(st: seq<StatusCode>, t0: seq<StatusCode>, s: nat, f: Flag, mark: Flag, m: nat)
    requires |st| == |t0| && s <= m <= |t0|
    requires forall i :: 0 <= i < |st| ==> (HasFlag(st[i], f) <==> HasFlag(t0[i], f))
    requires forall i :: 0 <= i < s && i < |t0| ==> !HasFlag(t0[i], f)
    requires m < |t0| ==> HasFlag(t0[m], f)
    requires forall j :: s <= j < m ==> !HasFlag(t0[j], f)
    requires forall i :: 0 <= i < |st| ==> (HasFlag(st[i], mark) <==> i == m)
    ensures MarksFirst(st, f, mark) && AtMostOne(st, mark)
  {
  }

  /** When f implies g, the first g comes no later than the first f. */
  lemma FirstMarksOrdered(st: seq<StatusCode>, f: Flag, g: Flag, markF: Flag, markG: Flag)
    requires Implies(st, f, g) && MarksFirst(st, f, markF) && MarksFirst(st, g, markG)
    ensures NotAfter(st, markG, markF)
  {
    forall i, j | 0 <= i < |st| && 0 <= j < |st| && HasFlag(st[i], markG) && HasFlag(st[j], markF)
      ensures i <= j
    {
    }
  }

  /**
   * lastVisible sits exactly on the greatest index carrying visible, and
   * lastPartiallyVisible on the greatest index carrying partiallyVisible;
   * each is carried at most once, and the last visible index is at most the
   * last partially visible one.
   */
  lemma CycleLastMarks(elems: seq<Element>, prev: seq<StatusCode>, v: View)
    requires |elems| >= 1 && |prev| == |elems|
    ensures var st := Cycle(elems, prev, v).statuses;
      MarksLast(st, Visible, LastVisible) && AtMostOne(st, LastVisible) &&
      MarksLast(st, PartiallyVisible, LastPartiallyVisible) && AtMostOne(st, LastPartiallyVisible) &&
      NotAfter(st, LastVisible, LastPartiallyVisible)
  {
    var s := WalkBack(elems, v, StartHint(prev));
    var st := ScanFrom(elems, v, s).statuses;
    ScanLast(elems, v, s, Visible, LastVisible);
    ScanLast(elems, v, s, PartiallyVisible, LastPartiallyVisible);
    ScanImplies(elems, v, s);
    LastMarksOrdered(st, Visible, PartiallyVisible, LastVisible, LastPartiallyVisible);
  }

  /** A mark placed exactly on the last index carrying f. */
  lemma MarkIsLast(st: seq<StatusCode>, t0: seq<StatusCode>, f: Flag, mark: Flag, m: int)
    requires |st| == |t0| && -1 <= m < |t0|
    requires forall i :: 0 <= i < |st| ==> (HasFlag(st[i], f) <==> HasFlag(t0[i], f))
    requires m >= 0 ==> HasFlag(t0[m], f)
    requires forall j :: m < j < |t0| ==> !HasFlag(t0[j], f)
    requires forall i :: 0 <= i < |st| ==> (HasFlag(st[i], mark) <==> i == m)
    ensures MarksLast(st, f, mark) && AtMostOne(st, mark)
  {
  }

  /** When f implies g, the last f comes no later than the last g. */
  lemma LastMarksOrdered(st: seq<StatusCode>, f: Flag, g: Flag, markF: Flag, markG: Flag)
    requires Implies(st, f, g) && MarksLast(st, f, markF) && MarksLast(st, g, markG)
    ensures NotAfter(st, markF, markG)
  {
    forall i, j | 0 <= i < |st| && 0 <= j < |st| && HasFlag(st[i], markF) && HasFlag(st[j], markG)
      ensures i <= j
    {
    }
  }

  /**
   * partiallyVisibleWithNoVisibleSiblings is set exactly on the partially
   * visible elements, and only when the cycle found no visible element.
   */
  lemma CycleNoVisibleSiblings(elems: seq<Element>, prev: seq<StatusCode>, v: View)
    requires |elems| >= 1 && |prev| == |elems|
    ensures var o := Cycle(elems, prev, v);
      |o.statuses| == |elems| &&
      (o.visibleElementsFound <==> exists i :: 0 <= i < |elems| && HasFlag(o.statuses[i], Visible)) &&
      (forall i :: 0 <= i < |elems| ==>
         (HasFlag(o.statuses[i], PartiallyVisibleWithNoVisibleSiblings) <==>
            !o.visibleElementsFound && o.startIdx <= i && HasFlag(o.statuses[i], PartiallyVisible)))
  {
    var s := WalkBack(elems, v, StartHint(prev));
    var stop := ScanStop(elems, v, s);
    ScanMarks(elems, v, s);
    ClassifiedTable(elems, v, s, stop);
    var o := Cycle(elems, prev, v);
    if o.visibleElementsFound {
      var j :| s <= j < stop && IsVisibleIn(elems[j], v);
      assert HasFlag(o.statuses[j], Visible);
    }
  }

  // ---------------------------------------------------------------------
  // Repeating a cycle

  lemma ClassifyRangeSkip(elems: seq<Element>, v: View, a: nat, b: nat, stop: nat)
    requires a <= b <= stop <= |elems|
    requires forall j :: a <= j < b ==> !IsPartiallyVisibleIn(elems[j], v)
    ensures ClassifyRange(Blank(|elems|), elems, v, a, stop) == ClassifyRange(Blank(|elems|), elems, v, b, stop)
  {
    ClassifiedTable(elems, v, a, stop);
    ClassifiedTable(elems, v, b, stop);
  }

  lemma MarkFirstSkip(t: seq<StatusCode>, a: nat, b: nat)
    requires a <= b <= |t|
    requires forall j :: a <= j < b ==> !Seen(t[j])
    ensures MarkFirst(t, a) == MarkFirst(t, b)
  {
    FirstWithSkip(t, a, b, Visible);
    FirstWithSkip(t, a, b, PartiallyVisible);
  }

  lemma MarkNoSiblingsSkip(t: seq<StatusCode>, a: nat, b: nat, found: bool)
    requires a <= b <= |t|
    requires forall j :: a <= j < b ==> !HasFlag(t[j], PartiallyVisible)
    ensures MarkNoSiblings(t, a, found) == MarkNoSiblings(t, b, found)
  {
  }

  /** Moving the start over elements that are not partially visible does not change the outcome. */
  lemma ScanFromLaterStart(elems: seq<Element>, v: View, a: nat, b: nat)
    requires a <= b < |elems|
    requires forall j :: a <= j < b ==> !IsPartiallyVisibleIn(elems[j], v)
    ensures ScanFrom(elems, v, a).statuses == ScanFrom(elems, v, b).statuses
    ensures ScanFrom(elems, v, a).visibleElementsFound == ScanFrom(elems, v, b).visibleElementsFound
  {
    var n := |elems|;
    FirstCoveredSkip(elems, v, a, b, true);
    var stop := ScanStop(elems, v, a);
    assert stop == ScanStop(elems, v, b);
    AnyVisibleSkip(elems, v, a, b, stop);
    ClassifyRangeSkip(elems, v, a, b, stop);
    var t0 := ClassifyRange(Blank(n), elems, v, a, stop);
    UnseenBefore(elems, v, a, b, stop);
    MarkFirstSkip(t0, a, b);
    MarkedUnseen(t0, a, b);
    MarkNoSiblingsSkip(MarkLast(MarkFirst(t0, a)), a, b, AnyVisible(elems, v, a, stop));
  }

  lemma AnyVisibleSkip(elems: seq<Element>, v: View, a: nat, b: nat, stop: nat)
    requires a <= b <= stop <= |elems|
    requires forall j :: a <= j < b ==> !IsPartiallyVisibleIn(elems[j], v)
    ensures AnyVisible(elems, v, a, stop) == AnyVisible(elems, v, b, stop)
  {
  }

  lemma UnseenBefore(elems: seq<Element>, v: View, a: nat, b: nat, stop: nat)
    requires a <= b <= stop <= |elems|
    requires forall j :: a <= j < b ==> !IsPartiallyVisibleIn(elems[j], v)
    ensures forall j :: a <= j < b ==> !Seen(ClassifyRange(Blank(|elems|), elems, v, a, stop)[j])
  {
  }

  /** Unseen entries stay free of partial visibility through the first and last marking. */
  lemma MarkedUnseen(t0: seq<StatusCode>, a: nat, b: nat)
    requires a <= b <= |t0|
    requires forall j :: a <= j < b ==> !Seen(t0[j])
    ensures forall j :: a <= j < b ==> !HasFlag(MarkLast(MarkFirst(t0, a))[j], PartiallyVisible)
  {
    MarkFirstFlags(t0, a);
    MarkLastFlags(MarkFirst(t0, a));
  }

  /**
   * A cycle whose start hint is 0 (the first cycle, or one after a cycle
   * that saw nothing or saw the first element) is reproduced by the next
   * cycle under the same viewport, which therefore notifies nobody.
   */
  lemma CycleStableAfterZeroHint(elems: seq<Element>, prev: seq<StatusCode>, v: View)
    requires |elems| >= 1 && |prev| == |elems|
    requires StartHint(prev) == 0
    ensures var o1 := Cycle(elems, prev, v);
      var o2 := Cycle(elems, o1.statuses, v);
      o2.statuses == o1.statuses &&
      o2.visibleElementsFound == o1.visibleElementsFound &&
      ChangeEvents(o1.statuses, o2.statuses, |elems|) == []
  {
    var st1 := ScanFrom(elems, v, 0).statuses;
    assert Cycle(elems, prev, v) == ScanFrom(elems, v, 0);
    ScanFromZeroSeen(elems, v);
    var s2 := SecondStart(elems, v, st1);
    ScanFromLaterStart(elems, v, 0, s2);
    NoChangeNoEvents(st1, st1, |elems|);
  }

  /** A scan from 0 sees exactly the block from the first partially visible element up to its stop. */
  lemma ScanFromZeroSeen(elems: seq<Element>, v: View)
    requires |elems| >= 1
    ensures var st := ScanFrom(elems, v, 0).statuses;
      |st| == |elems| &&
      forall i :: 0 <= i < |elems| ==>
        (Seen(st[i]) <==> FirstCovered(elems, v, 0, true) <= i < ScanStop(elems, v, 0))
  {
    ScanMarks(elems, v, 0);
    ClassifiedTable(elems, v, 0, ScanStop(elems, v, 0));
  }

  /** Where the cycle after such a scan starts: every element before it is not partially visible. */
  lemma SecondStart(elems: seq<Element>, v: View, st: seq<StatusCode>) returns (s2: nat)
    requires |elems| >= 1 && |st| == |elems|
    requires forall i :: 0 <= i < |elems| ==>
        (Seen(st[i]) <==> FirstCovered(elems, v, 0, true) <= i < ScanStop(elems, v, 0))
    ensures s2 == WalkBack(elems, v, StartHint(st)) && s2 < |elems|
    ensures forall j :: 0 <= j < s2 ==> !IsPartiallyVisibleIn(elems[j], v)
  {
    var n := |elems|;
    var u := FirstCovered(elems, v, 0, true);
    var stop := ScanStop(elems, v, 0);
    assert stop == FirstCovered(elems, v, u, false);
    var h := StartHint(st);
    s2 := WalkBack(elems, v, h);
    if u < n && u > 0 {
      assert Seen(st[u]);
      assert h == u;
      assert WalkBack(elems, v, u - 1) == u - 1;
    } else {
      assert h == 0;
    }
  }

  /** With every element off-screen, a cycle leaves every status blank and the next cycle notifies nobody. */
  lemma AllHiddenAllBlank(elems: seq<Element>, prev: seq<StatusCode>, v: View)
    requires |elems| >= 1 && |prev| == |elems|
    requires forall i :: 0 <= i < |elems| ==> !IsPartiallyVisibleIn(elems[i], v)
    ensures var o1 := Cycle(elems, prev, v);
      o1.statuses == Blank(|elems|) &&
      Cycle(elems, o1.statuses, v).statuses == Blank(|elems|) &&
      ChangeEvents(o1.statuses, Cycle(elems, o1.statuses, v).statuses, |elems|) == []
  {
    AllHiddenIsBlank(elems, prev, v);
    var o1 := Cycle(elems, prev, v);
    AllHiddenIsBlank(elems, o1.statuses, v);
    NoChangeNoEvents(o1.statuses, o1.statuses, |elems|);
  }

  lemma AllHiddenIsBlank(elems: seq<Element>, prev: seq<StatusCode>, v: View)
    requires |elems| >= 1 && |prev| == |elems|
    requires forall i :: 0 <= i < |elems| ==> !IsPartiallyVisibleIn(elems[i], v)
    ensures Cycle(elems, prev, v).statuses == Blank(|elems|)
  {
    var s := WalkBack(elems, v, StartHint(prev));
    var stop := ScanStop(elems, v, s);
    ScanMarks(elems, v, s);
    ClassifiedTable(elems, v, s, stop);
    var st := Cycle(elems, prev, v).statuses;
    forall i | 0 <= i < |elems| ensures st[i] == BLANK {
      assert !Seen(ClassifyRange(Blank(|elems|), elems, v, s, stop)[i]);
    }
  }

  /**
   * At construction the previous table is all blank, so the first cycle
   * notifies exactly the elements whose status is not blank.
   */
  lemma FirstCycleNotifiesNonBlank(elems: seq<Element>, v: View, i: nat)
    requires |elems| >= 1 && i < |elems|
    ensures var st := Cycle(elems, Blank(|elems|), v).statuses;
      var events := ChangeEvents(Blank(|elems|), st, |elems|);
      (exists j :: 0 <= j < |events| && events[j].index == i) <==> st[i] != BLANK
  {
    var st := Cycle(elems, Blank(|elems|), v).statuses;
    CycleClassification(elems, Blank(|elems|), v);
    ChangeEventsExact(Blank(|elems|), st, i);
  }
}
