/** The selection rule of the time screen's wheel pickers. The list shown
    is a leading spacer (list index 0), then the items (list indices 1 to
    |items|), then a trailing spacer (list index |items| + 1). The selected
    value is the item whose centre lies closest to the viewport's centre. */
module WheelPicker {
  import opened Wrappers
  import opened Flows

  /** One visible entry of the lazy list: its list index, the offset of its
      top edge within the viewport and its height, all in pixels. */
  datatype VisibleItem = VisibleItem(index: int, offset: int, size: int)

  /** A snapshot of the list's layout. */
  datatype ListLayout = ListLayout(viewportHeight: int, visibleItems: seq<VisibleItem>)

  /** The leading spacer is never a candidate. */
  predicate IsCandidate(item: VisibleItem) {
    item.index > 0
  }

  function Abs(x: int): nat {
    if x < 0 then -x else x
  }

  /** Twice `|(offset + size / 2) - viewportHeight / 2|`: doubling keeps
      the `/ 2f` halves of `getSelectedValue` exact in integers and preserves the order of
      distances. */
  function CenterDistance(item: VisibleItem, viewportHeight: int): nat {
    Abs(2 * item.offset + item.size - viewportHeight)
  }

  /** Among the first `n` visible items, `k` is the candidate closest to
      the centre, and no candidate before it is as close. */
  predicate IsClosestAmong(visible: seq<VisibleItem>, viewportHeight: int, n: nat, k: nat)
    requires n <= |visible|
  {
    && k < n
    && IsCandidate(visible[k])
    && (forall j :: 0 <= j < n && IsCandidate(visible[j]) ==>
          CenterDistance(visible[k], viewportHeight) <= CenterDistance(visible[j], viewportHeight))
    && (forall j :: 0 <= j < k && IsCandidate(visible[j]) ==>
          CenterDistance(visible[k], viewportHeight) < CenterDistance(visible[j], viewportHeight))
  }

  /** The closest candidate is unique. */
  lemma ClosestIsUnique(visible: seq<VisibleItem>, viewportHeight: int, n: nat, k: nat, k': nat)
    requires n <= |visible|
    requires IsClosestAmong(visible, viewportHeight, n, k)
    requires IsClosestAmong(visible, viewportHeight, n, k')
    ensures k == k'
  {
  }

  /** `filter { it.index > 0 }.minByOrNull { distance }` over the first `n`
      visible items, as a position in `visible`: a later candidate replaces
      the one held only when it is strictly closer. */
  function MinByOrNull(visible: seq<VisibleItem>, viewportHeight: int, n: nat): (r: Option<nat>)
    requires n <= |visible|
    ensures r.None? <==> forall j :: 0 <= j < n ==> !IsCandidate(visible[j])
    ensures r.Some? ==> IsClosestAmong(visible, viewportHeight, n, r.value)
  {
    if n == 0 then None
    else
      var held := MinByOrNull(visible, viewportHeight, n - 1);
      if !IsCandidate(visible[n - 1]) then held
      else if held.None? then Some(n - 1)
      else if CenterDistance(visible[n - 1], viewportHeight) < CenterDistance(visible[held.value], viewportHeight)
      then Some(n - 1)
      else held
  }

  /** The item at `index` of `items`, or null when out of range. */
  function ItemAt(items: seq<string>, index: int): (r: Option<string>)
    ensures r.Some? <==> 0 <= index < |items|
    ensures r.Some? ==> r.value == items[index]
  {
    if 0 <= index < |items| then Some(items[index]) else None
  }

  /** `getSelectedValue(items, state)`. */
  function SelectedValue(items: seq<string>, layout: ListLayout): (v: Option<string>)
    ensures layout.viewportHeight <= 0 || |layout.visibleItems| == 0 ==> v.None?
    ensures (forall j :: 0 <= j < |layout.visibleItems| ==> !IsCandidate(layout.visibleItems[j])) ==> v.None?
    ensures forall k: nat ::
      layout.viewportHeight > 0 &&
      IsClosestAmong(layout.visibleItems, layout.viewportHeight, |layout.visibleItems|, k) ==>
        v == ItemAt(items, layout.visibleItems[k].index - 1)
    ensures v.Some? ==> v.value in items
  {
    var visible := layout.visibleItems;
    if layout.viewportHeight > 0 && |visible| > 0 then
      match MinByOrNull(visible, layout.viewportHeight, |visible|)
      case None => None
      case Some(k) =>
        assert forall k': nat :: IsClosestAmong(visible, layout.viewportHeight, |visible|, k') ==> k' == k by {
          forall k': nat | IsClosestAmong(visible, layout.viewportHeight, |visible|, k') ensures k' == k {
            ClosestIsUnique(visible, layout.viewportHeight, |visible|, k, k');
          }
        }
        ItemAt(items, visible[k].index - 1)
    else None
  }

  /** The trailing spacer, when it is the closest candidate, selects
      nothing. */
  lemma TrailingSpacerSelectsNothing(items: seq<string>, layout: ListLayout, k: nat)
    requires layout.viewportHeight > 0
    requires IsClosestAmong(layout.visibleItems, layout.viewportHeight, |layout.visibleItems|, k)
    requires layout.visibleItems[k].index == |items| + 1
    ensures SelectedValue(items, layout).None?
  {
  }

  /** The iterative form of Kotlin's `minByOrNull` (a later candidate
      replaces the one held only when strictly closer), which both
      `getSelectedValue` and the selection tracking in `PickerColumn` apply
      to the visible non-spacer items, followed by the mapping back to an
      item. */
  method SelectedValueIterative(items: seq<string>, layout: ListLayout) returns (v: Option<string>)
    ensures v == SelectedValue(items, layout)
  {
    var visible := layout.visibleItems;
    var h := layout.viewportHeight;
    if h <= 0 || |visible| == 0 {
      return None;
    }
    var held: Option<nat> := None;
    var i := 0;
    while i < |visible|
      invariant 0 <= i <= |visible|
      invariant held == MinByOrNull(visible, h, i)
    {
      var item := visible[i];
      if IsCandidate(item) {
        if held.None? || CenterDistance(item, h) < CenterDistance(visible[held.value], h) {
          held := Some(i);
        }
      }
      i := i + 1;
    }
    match held {
      case None => v := None;
      case Some(k) => v := ItemAt(items, visible[k].index - 1);
    }
  }

  /** The rule's value for each layout snapshot, in order. */
  function Selections(items: seq<string>, snapshots: seq<ListLayout>): (r: seq<Option<string>>)
    ensures |r| == |snapshots|
    ensures forall i :: 0 <= i < |r| ==> r[i] == SelectedValue(items, snapshots[i])
  {
    seq(|snapshots|, i requires 0 <= i < |snapshots| => SelectedValue(items, snapshots[i]))
  }

  /** The values `PickerColumn` hands to `onSelectionChanged` for a run of
      layout snapshots: `snapshotFlow` emits a selection only when it
      differs from the one emitted before it (null included), and the
      collector then skips nulls. */
  function ReportedSelections(items: seq<string>, snapshots: seq<ListLayout>): (r: seq<string>)
    ensures |r| <= |snapshots|
    ensures forall x :: x in r ==> x in items
  {
    var emitted := DistinctUntilChanged(Selections(items, snapshots), None);
    DistinctShape(Selections(items, snapshots), None);
    PresentMembers(emitted);
    Present(emitted)
  }

  /** One more snapshot reports its selection exactly when that selection
      is non-null and differs from the previous snapshot's selection. */
  lemma ReportedStep(items: seq<string>, snapshots: seq<ListLayout>, layout: ListLayout)
    ensures ReportedSelections(items, snapshots + [layout]) ==
      ReportedSelections(items, snapshots) +
      (if SelectedValue(items, layout).None? ||
          (|snapshots| > 0 && SelectedValue(items, snapshots[|snapshots| - 1]) == SelectedValue(items, layout))
       then [] else [SelectedValue(items, layout).value])
  {
    var sel := Selections(items, snapshots);
    var v := SelectedValue(items, layout);
    assert Selections(items, snapshots + [layout]) == sel + [v];
    DistinctStep(sel, v, None);
    var d := DistinctUntilChanged(sel, None);
    var tail := if LastOf(sel, None) == Some(v) then [] else [v];
    PresentAppend(d, tail);
    assert [v][1..] == [];
  }

  /** A snapshot produces a report exactly when the rule selects a value,
      and the report is that value. */
  lemma ReportOnlyNonNull(items: seq<string>, layout: ListLayout)
    ensures SelectedValue(items, layout).None? ==> ReportedSelections(items, [layout]) == []
    ensures SelectedValue(items, layout).Some? ==>
      ReportedSelections(items, [layout]) == [SelectedValue(items, layout).value]
  {
    ReportedStep(items, [], layout);
    assert [] + [layout] == [layout];
  }

  /** Consecutive snapshots selecting the same value report it once. */
  lemma SameSelectionReportedOnce(items: seq<string>, first: ListLayout, second: ListLayout)
    ensures SelectedValue(items, second) == SelectedValue(items, first) ==>
      ReportedSelections(items, [first, second]) == ReportedSelections(items, [first])
    ensures SelectedValue(items, first).Some? && SelectedValue(items, second) == SelectedValue(items, first) ==>
      ReportedSelections(items, [first, second]) == [SelectedValue(items, first).value]
  {
    ReportOnlyNonNull(items, first);
    ReportedStep(items, [first], second);
    assert [first] + [second] == [first, second];
  }
}
