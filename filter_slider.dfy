/** The prev/next controls wrapped around a portfolio filter list. The list
    items are records with a class set; the item carrying `filter-active`
    is the selected filter. */
module FilterSlider {
  import opened Dom

  /** A filter `li`: its `data-filter` value and its classes. */
  datatype FilterItem = FilterItem(filter: string, classes: set<string>)

  const FilterActive: string := "filter-active"

  predicate IsActive(item: FilterItem) {
    FilterActive in item.classes
  }

  /** `getActiveIndex`: the first item marked active, or -1. */
  function ActiveIndex(items: seq<FilterItem>): (r: int)
    ensures -1 <= r < |items|
    ensures r == -1 <==> forall i | 0 <= i < |items| :: !IsActive(items[i])
    ensures 0 <= r ==> IsActive(items[r]) && forall i | 0 <= i < r :: !IsActive(items[i])
  {
    FindIndex(items, IsActive)
  }

  /** At most one item is marked active. */
  predicate SingleSelection(items: seq<FilterItem>) {
    forall i, j | 0 <= i < |items| && 0 <= j < |items| && IsActive(items[i]) && IsActive(items[j]) :: i == j
  }

  function Distance(i: int, j: int): nat {
    if i <= j then j - i else i - j
  }

  /** The clamped index `moveActive` steps to: the index of the list nearest
      to one step from the active item (from the first item when none is
      active). */
  function MoveTarget(n: int, active: int, direction: int): (r: int)
    requires 0 < n && -1 <= active < n
    ensures 0 <= r < n
    ensures var step := (if active == -1 then 0 else active) + direction;
            forall j | 0 <= j < n :: Distance(r, step) <= Distance(j, step)
  {
    var base := if active == -1 then 0 else active;
    var lower := if 0 < base + direction then base + direction else 0;
    if n - 1 < lower then n - 1 else lower
  }

  /** The filter click handler: the first active item loses `filter-active`
      and the clicked item gains it. */
  function Click(items: seq<FilterItem>, k: int): (r: seq<FilterItem>)
    requires 0 <= k < |items|
    ensures |r| == |items|
    ensures forall i | 0 <= i < |r| :: r[i].filter == items[i].filter
    ensures r[k].classes == items[k].classes + {FilterActive}
    ensures var a := ActiveIndex(items);
            a != -1 && a != k ==> r[a].classes == items[a].classes - {FilterActive}
    ensures forall i | 0 <= i < |r| && i != k && i != ActiveIndex(items) :: r[i] == items[i]
  {
    var a := ActiveIndex(items);
    var cleared := if a == -1 then items
                   else items[a := items[a].(classes := items[a].classes - {FilterActive})];
    cleared[k := cleared[k].(classes := cleared[k].classes + {FilterActive})]
  }

  /** Clicking an item of a list with at most one active item leaves that
      item, and only it, active. */
  lemma ClickSelects(items: seq<FilterItem>, k: int)
    requires 0 <= k < |items| && SingleSelection(items)
    ensures SingleSelection(Click(items, k))
    ensures ActiveIndex(Click(items, k)) == k
  {
    var r := Click(items, k);
    var a := ActiveIndex(items);
    forall i | 0 <= i < |r| && i != k
      ensures !IsActive(r[i])
    {
      if a != -1 && IsActive(items[i]) {
        assert i == a;
      }
    }
  }

  /** Whether `updateButtonsState` disables the previous-filters button. */
  predicate PrevDisabled(items: seq<FilterItem>): (r: bool)
    ensures r <==> |items| == 0 || IsActive(items[0]) || forall i | 0 <= i < |items| :: !IsActive(items[i])
  {
    |items| == 0 || ActiveIndex(items) <= 0
  }

  /** Whether `updateButtonsState` disables the next-filters button. */
  predicate NextDisabled(items: seq<FilterItem>): (r: bool)
    ensures r <==> |items| == 0 || (forall i | 0 <= i < |items| :: !IsActive(items[i])) ||
                   (IsActive(items[|items| - 1]) && forall i | 0 <= i < |items| - 1 :: !IsActive(items[i]))
  {
    |items| == 0 || ActiveIndex(items) == -1 || ActiveIndex(items) >= |items| - 1
  }

  /** With a selected filter, a button is enabled exactly when pressing it
      moves the selection; with none selected both are disabled. */
  lemma ButtonsEnabledIffMove(items: seq<FilterItem>)
    requires 0 < |items|
    ensures var a := ActiveIndex(items);
            (a == -1 ==> PrevDisabled(items) && NextDisabled(items)) &&
            (a != -1 ==> (!PrevDisabled(items) <==> MoveTarget(|items|, a, -1) != a)) &&
            (a != -1 ==> (!NextDisabled(items) <==> MoveTarget(|items|, a, 1) != a))
  {
  }

  /** The slider: its filter items and the disabled flags of its two buttons. */
  class Slider {
    var items: seq<FilterItem>
    var prevDisabled: bool
    var nextDisabled: bool

    /** Wraps a list; the freshly created buttons start enabled. */
    constructor(items0: seq<FilterItem>)
      ensures items == items0 && !prevDisabled && !nextDisabled
    {
      items := items0;
      prevDisabled := false;
      nextDisabled := false;
    }

    /** `updateButtonsState`: with no items both buttons are disabled;
        otherwise prev is disabled iff the active index is at most 0, and
        next iff there is no active item or it is the last one. */
    method UpdateButtonsState()
      modifies this`prevDisabled, this`nextDisabled
      ensures |items| == 0 ==> prevDisabled && nextDisabled
      ensures 0 < |items| ==> (prevDisabled <==> ActiveIndex(items) <= 0)
      ensures 0 < |items| ==> (nextDisabled <==> ActiveIndex(items) == -1 || ActiveIndex(items) >= |items| - 1)
    {
      if |items| == 0 {
        prevDisabled := true;
        nextDisabled := true;
        return;
      }
      var activeIndex := ActiveIndex(items);
      prevDisabled := activeIndex <= 0;
      nextDisabled := activeIndex == -1 || activeIndex >= |items| - 1;
    }

    /** `moveActive(direction)`: clicks the item at the clamped target and
        refreshes the buttons, unless the list is empty or the target is
        already the active item, in which case nothing changes. */
    method MoveActive(direction: int)
      modifies this
      ensures |old(items)| == 0 ==> unchanged(this)
      ensures 0 < |old(items)| ==>
        var a := ActiveIndex(old(items));
        var target := MoveTarget(|old(items)|, a, direction);
        if target == a then unchanged(this)
        else items == Click(old(items), target) &&
             prevDisabled == PrevDisabled(items) && nextDisabled == NextDisabled(items)
      ensures SingleSelection(old(items)) && 0 < |old(items)| ==>
        SingleSelection(items) && ActiveIndex(items) == MoveTarget(|old(items)|, ActiveIndex(old(items)), direction)
    {
      if |items| == 0 {
        return;
      }
      var activeIndex := ActiveIndex(items);
      var nextIndex := MoveTarget(|items|, activeIndex, direction);
      if nextIndex == activeIndex {
        return;
      }
      if SingleSelection(items) {
        ClickSelects(items, nextIndex);
      }
      items := Click(items, nextIndex);
      UpdateButtonsState();
    }
  }
}
