# Element visibility tracker — a verified model

This project models the classification cycle of `VisibilityTracker`, a browser utility. The tracker watches a fixed, ordered list of page elements. On every scroll it classifies each element against the viewport, and it notifies each element whose classification changed. Each element's status is a small bit set with seven flags:
- visible;
- first / last visible;
- partially visible;
- first / last partially visible;
- partially visible with no visible siblings.

`eye-focus-js/eye-focus.js` is a line-for-line copy of `visibilityTracker.js` under the name `EyeFocus`, and the same model covers both.

The project has five modules, one per file:

- `status.dfy` (module `Status`) is the status bit set. It holds:
  - the seven `STATUS_*` constants, as bits 1 to 7 of a `bv8` code;
  - the read, set and toggle modes of `checkOrSetStatus`, as functions;
  - a class `VisibilityStatus` whose methods update the code in place, like its JavaScript counterpart.

  A status whose code was never set (an undefined `_statusCode`) is the code `BLANK == 0`.
- `classifier.dfy` (module `Classifier`) is the reference definition of one cycle as functions of the element geometry, the viewport and the previous cycle's table:
  - `ClassifyInto` / `Classify` are the geometric test;
  - `StartHint` and `WalkBack` choose the start index;
  - `ScanStop` and `AnyVisible` describe the forward scan;
  - `MarkFirst`, `MarkLast` and `MarkNoSiblings` are the marking passes;
  - `Cycle` is the whole cycle;
  - `ChangeEvents` gives the notifications.
- `tracker.dfy` (module `VisibilityTracker`) holds the class `Tracker`:
  - its fields are those of the JavaScript object;
  - there is one method per step of `detectElementStatuses`, with the source's loops and `break`s;
  - each method is proved to compute the matching function of the reference cycle;
  - so one call of `DetectElementStatuses` is proved to compute `Cycle` and its change events.
- `properties.dfy` (module `CycleProperties`) proves what a cycle guarantees, stated on `Cycle`:
  - which flags every element carries;
  - that the first and last marks are unique and sit at the extreme qualifying indices;
  - when the no-visible-siblings flag is set;
  - exactly which elements are notified;
  - when repeating a cycle changes nothing.
- `scenarios.dfy` (module `Scenarios`) works through concrete three-element layouts. One of them shows a cycle that is not idempotent.

Triggering `visibility-status-change` on an element is recorded by appending the element's index and new code to the tracker's `dispatched` log.

The viewport (scroll offset and window height) is a parameter of each cycle. Each element's top offset and height are fields of an `Element` value fixed at construction.

Some consequences of the code:
- **Partially visible includes wholly visible.** The status comment at visibilityTracker.js:179 describes partiallyVisible as some of the element being visible but not all. The test at line 165 is the overlap test alone, so every visible element is also partially visible. The model follows the code (`Classifier.VisibleImpliesPartiallyVisible`, `Classifier.Classify`).
- **A [50, 180] viewport** over three elements of height 100 at tops 0, 100 and 200:
  - the second element reaches 200, below the viewport, so it is only partially visible;
  - the first two elements are partially visible, and both carry the no-visible-siblings flag;
  - the first element is first partially visible, and the second is last partially visible.

  See `Scenarios.PartialPair`.
- **First cycle.** `initVisibilityStatuses` runs in the constructor and again at the start of the first cycle. So the first cycle compares against a table of blank statuses. It notifies only the elements whose status is not blank (`CycleProperties.FirstCycleNotifiesNonBlank`).
- **Repeating a cycle.** Repeating a cycle with the same viewport does not always reproduce it. After a jump from the bottom of the page to the top, the backward walk stops at the stale start index, and the forward scan finds nothing: every status is blank. The next cycle starts from index 0 and marks the first element (`Scenarios.JumpUpMissesElement`). Repeating a cycle changes nothing when that cycle's start hint was 0 (`CycleProperties.CycleStableAfterZeroHint`).
- **Empty element list.** The backward walk reads `elements[0]` unconditionally, so an empty element list fails in the host. This one is not proved: the model requires at least one element (see "## Left out").

## Model

| member | source | states |
|---|---|---|
| Status.Bit | visibilityTracker.js:189-195 | each flag's bit is its STATUS_ constant, 1 << 1 for visible up to 1 << 7 for no-visible-siblings |
| Status.BitsAreDistinct | visibilityTracker.js:189-195 | every flag's bit is a single bit other than bit 0, and two different flags never share a bit |
| Status.HasFlag | visibilityTracker.js:230 | the read of checkOrSetStatus: a flag is set when the code AND its bit is non-zero |
| Status.SetFlag | visibilityTracker.js:227 | OR-ing a flag's bit sets that flag and changes no other flag; it keeps bit 0 clear, and setting a flag that is already set leaves the code unchanged |
| Status.ToggleFlag | visibilityTracker.js:228 | XOR-ing a flag's bit flips that flag (it clears it only when it was set) and changes no other flag; toggling again restores the code |
| Status.CheckOrSet | visibilityTracker.js:225-231 | with no value the code is unchanged, with true the flag is set, with false it is flipped; no other flag changes in any mode |
| Status.SameFlagsSameCode | visibilityTracker.js:233-235 | two well-formed codes are equal exactly when they carry the same flags, so comparing codes compares flag sets |
| Status.NoFlagsIsBlank | visibilityTracker.js:187 | a well-formed code is the blank (never set) code exactly when it carries no flag |
| Status.VisibilityStatus.constructor | visibilityTracker.js:187 | a new status object has the blank code |
| Status.VisibilityStatus.CheckOrSetStatus | visibilityTracker.js:225-231 | the code is updated in place as CheckOrSet says, and the result is whether the flag is set afterwards |
| Status.VisibilityStatus.IsVisible | visibilityTracker.js:197-199 | the visible accessor is checkOrSetStatus on the visible flag |
| Status.VisibilityStatus.IsFirstVisible | visibilityTracker.js:201-203 | the firstVisible accessor is checkOrSetStatus on its flag |
| Status.VisibilityStatus.IsLastVisible | visibilityTracker.js:205-207 | the lastVisible accessor is checkOrSetStatus on its flag |
| Status.VisibilityStatus.IsPartiallyVisible | visibilityTracker.js:209-211 | the partiallyVisible accessor is checkOrSetStatus on its flag |
| Status.VisibilityStatus.IsFirstPartiallyVisible | visibilityTracker.js:213-215 | the firstPartiallyVisible accessor is checkOrSetStatus on its flag |
| Status.VisibilityStatus.IsLastPartiallyVisible | visibilityTracker.js:217-219 | the lastPartiallyVisible accessor is checkOrSetStatus on its flag |
| Status.VisibilityStatus.IsPartiallyVisibleWithNoVisibleSiblings | visibilityTracker.js:221-223 | the no-visible-siblings accessor is checkOrSetStatus on its flag |
| Status.VisibilityStatus.Equals | visibilityTracker.js:233-235 | equal statuses carry the same flags, and for well-formed codes equality holds exactly when the flag sets agree |
| Classifier.IsVisibleIn | visibilityTracker.js:158-162 | the visible test: the element's top and bottom both lie within the viewport, ends included |
| Classifier.IsPartiallyVisibleIn | visibilityTracker.js:165 | the partially visible test: the element's bottom is at or below the viewport top and its top at or above the viewport bottom, so any overlap counts, a wholly visible element included |
| Classifier.VisibleImpliesPartiallyVisible | visibilityTracker.js:161-166 | an element that passes the visible test also passes the partially visible test |
| Classifier.ClassifyInto | visibilityTracker.js:157-167 | classification adds visible exactly when the element lies wholly inside the viewport, adds partiallyVisible exactly when it overlaps the viewport, and changes no other flag |
| Classifier.Classify | visibilityTracker.js:157-167 | a fresh status classified gets visible iff wholly inside, partiallyVisible iff overlapping, no other flag; visible implies partiallyVisible; the code stays blank iff the element does not overlap the viewport |
| Classifier.ClassifyTwice | visibilityTracker.js:67 | classifying an element that the backward walk already classified (the scan does so again at line 80) changes nothing |
| Classifier.Blank | visibilityTracker.js:43-46 | a table of n never-set statuses, one per element |
| Classifier.ClassifyRange | visibilityTracker.js:67 | the table with the entries from lo up to hi classified and every other entry untouched; its length is kept |
| Classifier.FirstSeen | visibilityTracker.js:59-64 | the search returns the least index from which on a previous status is visible or partially visible, or the end of the table |
| Classifier.StartHint | visibilityTracker.js:55-64 | the hint is the least index whose previous status is visible or partially visible, or 0 when there is none |
| Classifier.WalkBack | visibilityTracker.js:66-73 | the walk only moves down from the hint, ends at 0 or at an element that is not partially visible, and every index above its end up to the hint is partially visible |
| Classifier.FirstCovered | visibilityTracker.js:79-89 | the least index at or after from whose overlap test gives the wanted answer, or the end of the list |
| Classifier.ScanStop | visibilityTracker.js:79-89 | the scan from s goes at least one element, and stops at the first element that is not partially visible after one that is, or at the end of the list |
| Classifier.AnyVisible | visibilityTracker.js:81-85 | the found flag is true exactly when some element in the scanned range is wholly visible |
| Classifier.FirstWith | visibilityTracker.js:95-103 | the least index at or after the start carrying a flag, or the end of the table |
| Classifier.LastWith | visibilityTracker.js:113-121 | the greatest index carrying a flag, or -1 |
| Classifier.MarkAt | visibilityTracker.js:97 | one accessor call with true on index i: the length is kept and no other index changes |
| Classifier.MarkFirst | visibilityTracker.js:92-108 | the first pass: firstVisible goes on the first visible index and firstPartiallyVisible on the first partially visible index at or after the start; the length is kept |
| Classifier.MarkLast | visibilityTracker.js:110-126 | the last pass: lastVisible goes on the last visible index and lastPartiallyVisible on the last partially visible index of the whole table; the length is kept |
| Classifier.MarkAtFlags | visibilityTracker.js:97 | marking one index adds exactly that flag to exactly that index |
| Classifier.MarkNoSiblings | visibilityTracker.js:128-136 | the sibling pass leaves unchanged every entry when something was found visible, and otherwise every entry before the start or not partially visible |
| Classifier.ScanFrom | visibilityTracker.js:76-136 | from a fixed start index: the forward scan, the found flag and the three marking passes; its properties are stated by CycleProperties.ScanMarks |
| Classifier.Cycle | visibilityTracker.js:54-136 | what detectElementStatuses computes from the previous table and the viewport, without the events: the backward walk from the start hint, then ScanFrom; its properties are stated by the Cycle lemmas of CycleProperties |
| Classifier.MarkNoSiblingsFlags | visibilityTracker.js:128-136 | the sibling pass adds the no-visible-siblings flag exactly to the partially visible entries at or after the start, and only when nothing was found visible |
| Classifier.ChangeEvents | visibilityTracker.js:138-144 | the events over the first k indices: at most one per index, only for indices whose code changed, in index order (soundness and completeness are the two lemmas below) |
| Classifier.ChangeEventsSound | visibilityTracker.js:138-144 | every event names an index whose code changed and carries its new code, and events come in increasing index order |
| Classifier.ChangeEventsComplete | visibilityTracker.js:138-144 | every index whose code changed gets an event |
| Classifier.NoChangeNoEvents | visibilityTracker.js:138-144 | when no code changed, no event is produced |
| CycleProperties.ChangeEventsExact | visibilityTracker.js:138-144 | an index gets an event if and only if its code differs from the previous cycle's |
| CycleProperties.MarkFirstFlags | visibilityTracker.js:92-108 | the first pass adds firstVisible only at the first visible index and firstPartiallyVisible only at the first partially visible index at or after the start; nothing else changes |
| CycleProperties.MarkLastFlags | visibilityTracker.js:110-126 | the last pass adds lastVisible only at the last visible index and lastPartiallyVisible only at the last partially visible index of the table; nothing else changes |
| CycleProperties.LayerFlags | visibilityTracker.js:92-136 | after the three marking passes, each flag of each entry is stated in terms of the scanned table |
| CycleProperties.ScanMarks | visibilityTracker.js:76-136 | every flag of every entry after a cycle from a given start, in terms of the table the forward scan left |
| CycleProperties.CycleClassification | visibilityTracker.js:76-90 | after a cycle an element is visible / partially visible exactly when it lies in the scanned range and passes the geometric test; visible implies partially visible; every element outside the range is blank |
| CycleProperties.CycleScanRange | visibilityTracker.js:54-90 | the start index is at most the hint, the scan gets past the hint and stops at an element that is not partially visible, the scanned range is hidden elements then partially visible ones, and found holds exactly when a scanned element is visible |
| CycleProperties.HintBeforeStop | visibilityTracker.js:66-89 | the forward scan from where the backward walk ended always gets past the hint |
| CycleProperties.CycleFirstMarks | visibilityTracker.js:92-108 | firstVisible and firstPartiallyVisible are each carried by at most one element, the least one carrying visible / partiallyVisible, and the first partially visible index is at most the first visible one |
| CycleProperties.CycleLastMarks | visibilityTracker.js:110-126 | lastVisible and lastPartiallyVisible are each carried by at most one element, the greatest one carrying visible / partiallyVisible, and the last visible index is at most the last partially visible one |
| CycleProperties.CycleNoVisibleSiblings | visibilityTracker.js:128-136 | found holds exactly when some element is visible, and the no-visible-siblings flag is carried exactly by the partially visible elements at or after the start when nothing was found |
| CycleProperties.CycleStableAfterZeroHint | visibilityTracker.js:54-74 | after a cycle whose start hint is 0, the next cycle under the same viewport yields the same statuses and found flag and notifies nobody |
| CycleProperties.ScanFromLaterStart | visibilityTracker.js:79-89 | starting the scan later, past elements that are not partially visible, gives the same outcome |
| CycleProperties.SecondStart | visibilityTracker.js:55-73 | after a scan from 0, the next cycle starts at an index below which no element is partially visible |
| CycleProperties.ScanFromZeroSeen | visibilityTracker.js:79-89 | a scan from 0 leaves exactly the partially visible block up to its stop seen |
| CycleProperties.AllHiddenAllBlank | visibilityTracker.js:146-155 | with every element off-screen every status is blank, and the next cycle notifies nobody |
| CycleProperties.AllHiddenIsBlank | visibilityTracker.js:76-136 | with every element off-screen a cycle leaves every status blank |
| CycleProperties.FirstCycleNotifiesNonBlank | visibilityTracker.js:32-33 | the first cycle compares against blank statuses, so it notifies exactly the elements whose status is not blank |
| Scenarios.PartialPair | visibilityTracker.js:146-155 | with the [50, 180] viewport the first two rows are partially visible and carry no-visible-siblings; the first is first partially visible, the second last partially visible; the third is blank |
| Scenarios.LonePartialScan | visibilityTracker.js:92-136 | when the scan meets exactly one overlapping element and it is not wholly visible, that element ends with exactly partiallyVisible, firstPartiallyVisible, lastPartiallyVisible and no-visible-siblings |
| Scenarios.LonePartialCycle | visibilityTracker.js:146-155 | the same for a whole cycle, when the previous table's start hint is at or before that element: its first seen element is at or before it, or it saw nothing |
| Scenarios.ScrolledToBottom | visibilityTracker.js:146-155 | scrolled to the bottom only the last row is seen, as the lone partially visible element |
| Scenarios.JumpedToTop | visibilityTracker.js:66-89 | after a jump from the bottom to the top, the cycle that starts from the stale hint leaves every status blank |
| Scenarios.SettledAtTop | visibilityTracker.js:146-155 | a cycle at the top from blank statuses marks the first row as the lone partially visible element |
| Scenarios.JumpUpMissesElement | visibilityTracker.js:54-90 | the first row is partially visible at the top, yet the cycle after the jump leaves it blank and the next identical cycle differs |
| VisibilityTracker.Tracker.constructor | visibilityTracker.js:30-33 | the new tracker has run one cycle against blank previous statuses: its outcome is Cycle's and its log holds exactly that cycle's change events |
| VisibilityTracker.Tracker.InitVisibilityStatuses | visibilityTracker.js:41-47 | the current table becomes the previous one and every element gets a blank status |
| VisibilityTracker.Tracker.CalcDocViewOffsets | visibilityTracker.js:49-52 | the viewport runs from the scroll offset down by the window height |
| VisibilityTracker.Tracker.SetInitialVisibilityStatus | visibilityTracker.js:157-167 | exactly the entry of the given element is updated, with ClassifyInto |
| VisibilityTracker.Tracker.FindStartHint | visibilityTracker.js:55-64 | the loop leaves startIdx at StartHint of the previous table |
| VisibilityTracker.Tracker.WalkStartBack | visibilityTracker.js:66-73 | the loop leaves startIdx at WalkBack of its start and classifies exactly the entries it visits |
| VisibilityTracker.Tracker.DetermineStartIndex | visibilityTracker.js:54-74 | startIdx becomes WalkBack of the start hint, with the entries from there up to the hint classified |
| VisibilityTracker.Tracker.SearchForVisibleElements | visibilityTracker.js:76-90 | the loop classifies exactly the range [startIdx, ScanStop) and sets found to AnyVisible over it |
| VisibilityTracker.Tracker.SearchForFirstElements | visibilityTracker.js:92-108 | the loop computes MarkFirst of the table |
| VisibilityTracker.Tracker.SearchForLastElements | visibilityTracker.js:110-126 | the backward loop computes MarkLast of the table |
| VisibilityTracker.Tracker.SetSiblingStatusForPartiallyVisibleElements | visibilityTracker.js:128-136 | the loop computes MarkNoSiblings of the table |
| VisibilityTracker.Tracker.TriggerStatusChangeEvents | visibilityTracker.js:138-144 | the log grows by exactly ChangeEvents of the previous and current tables |
| VisibilityTracker.Tracker.DetectElementStatuses | visibilityTracker.js:146-155 | one cycle: the previous table is the old current one, and the statuses, start index and found flag are Cycle's; the log grows by that cycle's change events |
| VisibilityTracker.CycleSteps | visibilityTracker.js:147-153 | the steps in the order detectElementStatuses runs them compose to Cycle |

## Left out

- jQuery and `window`: the scroll offset and window height (`calcDocViewOffsets`) are parameters of each cycle, and each element's top offset and height are integers given at construction. The source reads the element offsets on every classification; the model treats the page layout as fixed.
- Floating point: offsets and heights are integers. The tracker compares them and forms two sums: the viewport bottom (visibilityTracker.js:51) and each element's bottom (line 159). The model takes those sums as exact, with no rounding.
- The scroll subscription (visibilityTracker.js:34-36): a scroll event is modelled as one more call of `DetectElementStatuses`.
- Event dispatch (visibilityTracker.js:141): a trigger is recorded as an (index, code) entry of the `dispatched` log. Handlers, and the status object passed to them, are not modelled.
- Construction checks (visibilityTracker.js:16-29): the jQuery and `window` checks are environment checks. The `instanceof` test never throws as written. The undefined-entry check has no counterpart, because the element list is a sequence of values.
- The early return at visibilityTracker.js:56 is never taken: the previous table is an object, never undefined or null once the constructor has run, and has no `length`. The model leaves it out.
- An empty element list: the constructor requires at least one element, because the host fails on `elements[0]`.
- Status objects in the tables: the tracker's tables hold status codes, not shared status objects, so aliasing between a table and an event payload is not modelled. The object API itself is modelled by `Status.VisibilityStatus`.
- Status.ToggleFlag: the source's `checkOrSetStatus(false, …)` XORs. A code toggled back to 0 is unequal, in the source, to a status that was never set (`0 !== undefined`); the model has a single blank code. The tracker never calls the accessors with `false`.
- `VisibilityTracker.VERSION` (visibilityTracker.js:39) is a constant with no behaviour.
- VisibilityTracker.Tracker.DetermineStartIndex is written as two methods, `FindStartHint` (the hint loop) and `WalkStartBack` (the `while (true)` walk), run in the source's order.
- VisibilityTracker.Tracker.SearchForVisibleElements takes the start hint as a ghost parameter. It only names the range the backward walk already classified and has no run-time effect.
