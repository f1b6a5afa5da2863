/**
 * Keyboard focus of the `List` component (`cmd/quilt-web/ui/List.tsx`):
 * Enter confirms the focused item (or the first), ArrowUp and ArrowDown move
 * the focus with wrap-around, and a new list of items resets the focus.
 *
 * The component's key handler is installed once, at mount, and reads the
 * items through a ref that is never updated, so as written it navigates the
 * items of the first render; `ListState.HandleKeydownAsWritten` models that,
 * `ListState.HandleKeydown` navigates the current items.
 */
module FocusList {
  import opened Common

  /** `items.indexOf(x)`: the first position of `x`, or -1 when it is absent or nothing is focused. */
  function IndexOfItem<T(==)>(items: seq<T>, x: Option<T>): (i: int)
    ensures -1 <= i < |items|
    ensures i >= 0 ==> x.Some? && items[i] == x.value && forall k | 0 <= k < i :: items[k] != x.value
    ensures i == -1 <==> x.None? || x.value !in items
  {
    if x.None? || items == [] then -1
    else if items[0] == x.value then 0
    else
      var j := IndexOfItem(items[1..], x);
      if j == -1 then -1 else j + 1
  }

  /** `items[i]` occurs nowhere before position `i`. */
  predicate FirstAt<T(==)>(items: seq<T>, i: nat)
  {
    i < |items| && forall k | 0 <= k < i :: items[k] != items[i]
  }

  /** `items[i]`, undefined (None) outside the list. */
  function ItemAt<T>(items: seq<T>, i: int): (r: Option<T>)
    ensures r.Some? <==> 0 <= i < |items|
    ensures r.Some? ==> r.value == items[i]
  {
    if 0 <= i < |items| then Some(items[i]) else None
  }

  /** The step of an arrow key: -1 for ArrowUp, 1 for ArrowDown, 0 for any other key. */
  function Delta(key: string): int
  {
    if key == "ArrowUp" then -1 else if key == "ArrowDown" then 1 else 0
  }

  /** The new focus after moving by `dy` from `focused`, wrapping past either end. */
  function Moved<T(==)>(items: seq<T>, focused: Option<T>, dy: int): Option<T>
  {
    var index := IndexOfItem(items, focused) + dy;
    var max := |items| - 1;
    ItemAt(items, if index > max then 0 else if index < 0 then max else index)
  }

  /** The focus after a key press, and the item it confirms. */
  datatype Step<T> = Step(focused: Option<T>, confirmed: Option<T>)

  /** `handleKeydown` over the list `items`. */
  function KeyStep<T(==)>(items: seq<T>, focused: Option<T>, key: string): Step<T>
  {
    if key == "Enter" then Step(focused, if focused.Some? then focused else ItemAt(items, 0))
    else if Delta(key) != 0 then Step(Moved(items, focused, Delta(key)), None)
    else Step(focused, None)
  }

  /** The focus reset effect: nothing, or the first item when `autoFocusFirstItem` is set. */
  function ResetFocus<T>(items: seq<T>, autoFocusFirstItem: bool): (r: Option<T>)
    ensures r.Some? <==> autoFocusFirstItem && |items| >= 1
    ensures r.Some? ==> r.value == items[0]
  {
    if autoFocusFirstItem then ItemAt(items, 0) else None
  }

  /** ArrowDown moves to the next item and from the last one wraps to the first. */
  lemma ArrowDownNext<T>(items: seq<T>, i: nat)
    requires FirstAt(items, i)
    ensures KeyStep(items, Some(items[i]), "ArrowDown") == Step(Some(items[if i + 1 < |items| then i + 1 else 0]), None)
  {
    IndexAt(items, i);
  }

  /** ArrowUp moves to the previous item and from the first one wraps to the last. */
  lemma ArrowUpPrevious<T>(items: seq<T>, i: nat)
    requires FirstAt(items, i)
    ensures KeyStep(items, Some(items[i]), "ArrowUp") == Step(Some(items[if i >= 1 then i - 1 else |items| - 1]), None)
  {
    IndexAt(items, i);
  }

  /** The position found for the first occurrence of an item is that occurrence. */
  lemma IndexAt<T>(items: seq<T>, i: nat)
    requires FirstAt(items, i)
    ensures IndexOfItem(items, Some(items[i])) == i
  {
  }

  /** With nothing focused, ArrowDown focuses the first item and ArrowUp the last. */
  lemma NothingFocused<T>(items: seq<T>)
    requires |items| >= 1
    ensures KeyStep(items, None, "ArrowDown").focused == Some(items[0])
    ensures KeyStep(items, None, "ArrowUp").focused == Some(items[|items| - 1])
  {
  }

  /** On a non-empty list an arrow key always focuses one of its items; on an empty one, nothing. */
  lemma ArrowStaysInList<T>(items: seq<T>, focused: Option<T>, key: string)
    requires key == "ArrowUp" || key == "ArrowDown"
    ensures |items| >= 1 ==> KeyStep(items, focused, key).focused.Some? && KeyStep(items, focused, key).focused.value in items
    ensures |items| == 0 ==> KeyStep(items, focused, key).focused.None?
  {
  }

  /** Enter confirms the focused item, or the first when nothing is focused, and leaves the focus. */
  lemma EnterConfirms<T>(items: seq<T>, focused: Option<T>)
    ensures KeyStep(items, focused, "Enter").focused == focused
    ensures focused.Some? ==> KeyStep(items, focused, "Enter").confirmed == focused
    ensures focused.None? && |items| >= 1 ==> KeyStep(items, focused, "Enter").confirmed == Some(items[0])
    ensures focused.None? && |items| == 0 ==> KeyStep(items, focused, "Enter").confirmed.None?
  {
  }

  /** Any other key changes nothing and confirms nothing. */
  lemma OtherKeysIgnored<T>(items: seq<T>, focused: Option<T>, key: string)
    requires key != "Enter" && key != "ArrowUp" && key != "ArrowDown"
    ensures KeyStep(items, focused, key) == Step(focused, None)
  {
  }

  /** In a list without repeated items, ArrowUp undoes ArrowDown. */
  lemma ArrowUpUndoesArrowDown<T>(items: seq<T>, i: nat)
    requires i < |items|
    requires forall a, b | 0 <= a < b < |items| :: items[a] != items[b]
    ensures KeyStep(items, KeyStep(items, Some(items[i]), "ArrowDown").focused, "ArrowUp").focused == Some(items[i])
  {
    ArrowDownNext(items, i);
    var j := if i + 1 < |items| then i + 1 else 0;
    ArrowUpPrevious(items, j);
  }

  /** The list's focus (`focusedItemRef`) and the items it is rendered with. */
  class ListState<T(==)> {
    var items: seq<T>
    var focused: Option<T>
    /** `itemsRef.current`, and the `items` the handler closed over: both fixed at mount. */
    const mountItems: seq<T>
    var autoFocusFirstItem: bool

    /** Focus is empty or on one of the current items. */
    predicate Valid()
      reads this
    {
      focused.None? || focused.value in items
    }

    /** The first render, after which the reset effect runs. */
    constructor(items: seq<T>, autoFocusFirstItem: bool)
      ensures this.items == items && mountItems == items && this.autoFocusFirstItem == autoFocusFirstItem
      ensures focused == ResetFocus(items, autoFocusFirstItem)
      ensures Valid()
    {
      this.items := items;
      mountItems := items;
      this.autoFocusFirstItem := autoFocusFirstItem;
      var f: Option<T> := None;
      if autoFocusFirstItem {
        f := ItemAt(items, 0);
      }
      focused := f;
    }

    /**
     * A render in which a dependency of the reset effect changed, the items
     * or `autoFocusFirstItem`: the effect runs again with the new props.
     */
    method PropsChanged(newItems: seq<T>, newAutoFocus: bool)
      modifies this
      ensures items == newItems && autoFocusFirstItem == newAutoFocus
      ensures focused == ResetFocus(newItems, newAutoFocus)
      ensures Valid()
    {
      items := newItems;
      autoFocusFirstItem := newAutoFocus;
      focused := None;
      if autoFocusFirstItem {
        focused := ItemAt(items, 0);
      }
    }

    /** The key handler navigating the current items; it keeps the focus on them. */
    method HandleKeydown(key: string) returns (confirmed: Option<T>)
      modifies this
      ensures Step(focused, confirmed) == KeyStep(items, old(focused), key)
      ensures items == old(items)
      ensures old(Valid()) ==> Valid()
    {
      confirmed := Navigate(items, key);
    }

    /** The key handler as written: it navigates the items of the first render. */
    method HandleKeydownAsWritten(key: string) returns (confirmed: Option<T>)
      modifies this
      ensures Step(focused, confirmed) == KeyStep(mountItems, old(focused), key)
      ensures items == old(items)
    {
      confirmed := Navigate(mountItems, key);
    }

    /** The body of `handleKeydown`, reading the list `nav`. */
    method Navigate(nav: seq<T>, key: string) returns (confirmed: Option<T>)
      modifies this
      ensures Step(focused, confirmed) == KeyStep(nav, old(focused), key)
      ensures items == old(items)
      ensures old(focused.None? || focused.value in nav) ==> focused.None? || focused.value in nav
    {
      confirmed := None;
      if key == "Enter" {
        var item := if focused.Some? then focused else ItemAt(nav, 0);
        if item.Some? {
          confirmed := item;
        }
        return;
      }
      var dy := 0;
      if key == "ArrowUp" {
        dy := -1;
      } else if key == "ArrowDown" {
        dy := 1;
      }
      if dy != 0 {
        var index := IndexOfItem(nav, focused);
        index := index + dy;
        var max := |nav| - 1;
        if index > max {
          index := 0;
        } else if index < 0 {
          index := max;
        }
        focused := ItemAt(nav, index);
      }
    }
  }

  /**
   * As written, once the items change the arrows walk the first render's
   * list: with `[1, 2, 3]` at mount and `[3]` now shown and focused,
   * ArrowDown focuses 1, which is not shown; over the current items it stays
   * on 3.
   */
  lemma StaleItemsLeaveTheList()
    ensures KeyStep([1, 2, 3], Some(3), "ArrowDown").focused == Some(1)
    ensures 1 !in [3]
    ensures KeyStep([3], Some(3), "ArrowDown").focused == Some(3)
  {
    ArrowDownNext([1, 2, 3], 2);
    ArrowDownNext([3], 0);
  }
}
