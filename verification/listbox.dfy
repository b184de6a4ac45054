/**
 * The scrolling list box control: layout of item slots, scrolling by the
 * mouse wheel and hit-testing of rows (`gui/control/listbox.cpp`).
 *
 * The prototype item and the scroll bar are child controls; only their
 * extent and visibility matter here. C++'s truncating `int` division and the
 * implicit `int` to `size_t` conversions of the source are written out.
 */
module ListBoxes {
  import opened Wrappers

  // ---------------------------------------------------------------------------
  // C++ integer semantics

  const SizeModulus: int := 0x1_0000_0000_0000_0000

  /** The implicit conversion of an `int` to `size_t` (64 bits). */
  function ToSize(n: int): (s: nat)
    ensures s < SizeModulus
    ensures 0 <= n < SizeModulus ==> s == n
    ensures -SizeModulus <= n < 0 ==> s == SizeModulus + n
  {
    n % SizeModulus
  }

  /** C++ `int` division, which truncates toward zero. */
  function TruncDiv(a: int, b: int): (q: int)
    requires b != 0
    ensures (a >= 0) == (b > 0) ==> q >= 0
    ensures (a >= 0) != (b > 0) ==> q <= 0
  {
    var n := if a >= 0 then a else -a;
    var d := if b > 0 then b else -b;
    if (a >= 0) == (b > 0) then n / d else -(n / d)
  }

  /**
   * For a positive divisor the truncated quotient brackets the dividend:
   * from below for a non-negative dividend, from above for a negative one,
   * and it never exceeds the dividend in size.
   */
  lemma TruncDivBounds(a: int, b: int)
    requires b > 0
    ensures a >= 0 ==> TruncDiv(a, b) * b <= a < TruncDiv(a, b) * b + b && TruncDiv(a, b) <= a
    ensures a < 0 ==> TruncDiv(a, b) * b - b < a <= TruncDiv(a, b) * b && TruncDiv(a, b) >= a
  {
    if a >= 0 {
      DivBrackets(a, b);
    } else {
      DivBrackets(-a, b);
      assert TruncDiv(a, b) * b == -((-a) / b * b);
    }
  }

  /** Euclidean division of a non-negative number by a positive one. */
  lemma DivBrackets(n: int, d: int)
    requires n >= 0 && d > 0
    ensures (n / d) * d <= n < (n / d) * d + d
    ensures 0 <= n / d <= n
  {
    var k, m := n / d, n % d;
    assert n == d * k + m && 0 <= m < d;
    assert d * k == k * d;
    if k > 0 {
      MulMono(1, d, k);
    }
  }

  // ---------------------------------------------------------------------------
  // State

  datatype Extent = Extent(left: int, top: int, width: int, height: int)

  datatype Item = Item(tag: string, text: string, icon: Option<string>)

  datatype ScrollBar = ScrollBar(visible: bool)

  /**
   * A list box. `protoItem` is the extent of the prototype item control, used
   * for every visible row; `slotCount` is the number of rows that fit;
   * `itemOffset` is the index of the item in the first row.
   */
  datatype ListBox = ListBox(
    tag: string,
    extent: Extent,
    focus: bool,
    protoItem: Option<Extent>,
    scrollBar: Option<ScrollBar>,
    padding: int,
    items: seq<Item>,
    itemOffset: int,
    slotCount: int,
    hilightedIndex: int)

  /**
   * The divisor of the layout arithmetic is not zero whenever a prototype
   * exists; the source divides by it without a check.
   */
  predicate RowHeightNonZero(lb: ListBox) {
    lb.protoItem.Some? ==> lb.protoItem.value.height + lb.padding != 0
  }

  /** The height of one row: the prototype's height plus the padding. */
  function RowHeight(lb: ListBox): (h: int)
    requires lb.protoItem.Some? && RowHeightNonZero(lb)
    ensures h != 0
  {
    lb.protoItem.value.height + lb.padding
  }

  /**
   * The layout invariant: a positive row height, a non-negative extent, and an
   * item offset within the item list (and sizes well below `size_t`'s range).
   */
  predicate WellFormed(lb: ListBox) {
    && (lb.protoItem.Some? ==> lb.protoItem.value.height + lb.padding > 0)
    && 0 <= lb.extent.height < SizeModulus
    && 0 <= lb.slotCount < SizeModulus
    && 0 <= lb.itemOffset <= |lb.items| < SizeModulus
  }

  // ---------------------------------------------------------------------------
  // Layout

  /**
   * Recomputes how many rows fit in the extent and shows the scroll bar
   * exactly when there are more items than rows; without a prototype nothing
   * changes.
   */
  function UpdateItems(lb: ListBox): (r: ListBox)
    requires RowHeightNonZero(lb)
    ensures lb.protoItem.None? ==> r == lb
    ensures lb.protoItem.Some? ==> r.slotCount == TruncDiv(lb.extent.height, RowHeight(lb))
    ensures r.scrollBar.Some? <==> lb.scrollBar.Some?
    ensures lb.protoItem.Some? && lb.scrollBar.Some? ==>
              (r.scrollBar.value.visible <==> |lb.items| > ToSize(r.slotCount))
    ensures r == lb.(slotCount := r.slotCount, scrollBar := r.scrollBar)
  {
    if lb.protoItem.None? then lb
    else
      var slotCount := TruncDiv(lb.extent.height, RowHeight(lb));
      var scrollBar := if lb.scrollBar.Some? then Some(ScrollBar(|lb.items| > ToSize(slotCount))) else lb.scrollBar;
      lb.(slotCount := slotCount, scrollBar := scrollBar)
  }

  /**
   * In a well-formed list box the slot count is the number of whole rows
   * that fit in the extent, and the scroll bar is shown exactly when the
   * items do not all fit.
   */
  lemma SlotCountIsWholeRows(lb: ListBox)
    requires lb.protoItem.Some? && RowHeightNonZero(lb) && RowHeight(lb) > 0 && lb.extent.height >= 0
    requires |lb.items| < SizeModulus && lb.extent.height < SizeModulus
    ensures var r := UpdateItems(lb);
            && 0 <= r.slotCount
            && r.slotCount * RowHeight(lb) <= lb.extent.height < (r.slotCount + 1) * RowHeight(lb)
            && (r.scrollBar.Some? ==> (r.scrollBar.value.visible <==> |r.items| > r.slotCount))
  {
    TruncDivBounds(lb.extent.height, RowHeight(lb));
  }

  /** Changes the extent, then recomputes the layout. */
  function SetExtent(lb: ListBox, extent: Extent): (r: ListBox)
    requires RowHeightNonZero(lb)
    ensures r.extent == extent && r.items == lb.items && r.itemOffset == lb.itemOffset
    ensures lb.protoItem.Some? ==> r.slotCount == TruncDiv(extent.height, RowHeight(lb))
    ensures lb.protoItem.Some? && lb.scrollBar.Some? ==>
              r.scrollBar.Some? && (r.scrollBar.value.visible <==> |r.items| > ToSize(r.slotCount))
    ensures r == lb.(extent := extent, slotCount := r.slotCount, scrollBar := r.scrollBar)
    ensures lb.protoItem.None? ==> r == lb.(extent := extent)
    ensures r.scrollBar.Some? <==> lb.scrollBar.Some?
  {
    UpdateItems(lb.(extent := extent))
  }

  /** Removes every item and scrolls back to the top. */
  function ClearItems(lb: ListBox): (r: ListBox)
    requires RowHeightNonZero(lb)
    ensures r.items == [] && r.itemOffset == 0
    ensures lb.protoItem.Some? ==> r.slotCount == TruncDiv(lb.extent.height, RowHeight(lb))
    ensures r.scrollBar.Some? <==> lb.scrollBar.Some?
    ensures r.protoItem.Some? && r.scrollBar.Some? ==> !r.scrollBar.value.visible
    ensures r == lb.(items := [], itemOffset := 0, slotCount := r.slotCount, scrollBar := r.scrollBar)
    ensures lb.protoItem.None? ==> r == lb.(items := [], itemOffset := 0)
    ensures WellFormed(lb) ==> WellFormed(r)
  {
    if lb.protoItem.Some? && RowHeight(lb) > 0 && lb.extent.height >= 0 then
      TruncDivBounds(lb.extent.height, RowHeight(lb));
      UpdateItems(lb.(items := [], itemOffset := 0))
    else
      UpdateItems(lb.(items := [], itemOffset := 0))
  }

  /** Appends an item after all existing ones. */
  function Add(lb: ListBox, item: Item): (r: ListBox)
    requires RowHeightNonZero(lb)
    ensures |r.items| == |lb.items| + 1 && r.items[|lb.items|] == item
    ensures forall i :: 0 <= i < |lb.items| ==> r.items[i] == lb.items[i]
    ensures r.itemOffset == lb.itemOffset
    ensures lb.protoItem.Some? ==> r.slotCount == TruncDiv(lb.extent.height, RowHeight(lb))
    ensures lb.protoItem.Some? && lb.scrollBar.Some? ==>
              r.scrollBar.Some? && (r.scrollBar.value.visible <==> |r.items| > ToSize(r.slotCount))
    ensures r == lb.(items := r.items, slotCount := r.slotCount, scrollBar := r.scrollBar)
    ensures lb.protoItem.None? ==> r == lb.(items := lb.items + [item])
    ensures r.scrollBar.Some? <==> lb.scrollBar.Some?
    ensures WellFormed(lb) && |lb.items| + 1 < SizeModulus ==> WellFormed(r)
  {
    if lb.protoItem.Some? && RowHeight(lb) > 0 && lb.extent.height >= 0 then
      TruncDivBounds(lb.extent.height, RowHeight(lb));
      UpdateItems(lb.(items := lb.items + [item]))
    else
      UpdateItems(lb.(items := lb.items + [item]))
  }

  /** The item at `index`, which the source asserts is in range. */
  function GetItemAt(lb: ListBox, index: int): (item: Item)
    requires 0 <= index < |lb.items|
    ensures item in lb.items
  {
    lb.items[index]
  }

  /** After Add the new item is the last one and every earlier one is where it was. */
  lemma AddThenGetItemAt(lb: ListBox, item: Item, i: int)
    requires RowHeightNonZero(lb)
    requires 0 <= i <= |lb.items|
    ensures GetItemAt(Add(lb, item), i) == if i == |lb.items| then item else GetItemAt(lb, i)
  {
  }

  // ---------------------------------------------------------------------------
  // Hit-testing

  /**
   * The index of the item whose row contains the vertical coordinate `y`, or
   * -1 when there is no prototype or the row holds no item.
   */
  function GetItemIndex(lb: ListBox, y: int): (r: int)
    requires RowHeightNonZero(lb)
    ensures lb.protoItem.None? ==> r == -1
    ensures r == -1 || 0 <= r < |lb.items|
    ensures lb.protoItem.Some? ==>
              var idx := TruncDiv(y - lb.protoItem.value.top, RowHeight(lb)) + lb.itemOffset;
              r == (if 0 <= idx < |lb.items| then idx else -1)
  {
    if lb.protoItem.None? then -1
    else
      var idx := TruncDiv(y - lb.protoItem.value.top, RowHeight(lb)) + lb.itemOffset;
      if 0 <= idx < |lb.items| then idx else -1
  }

  /**
   * At or below the top of the first row, the hit item is the one whose row
   * spans `y`: the index is found exactly when that row shows an item.
   */
  lemma HitTestFindsRow(lb: ListBox, y: int, i: int)
    requires lb.protoItem.Some? && RowHeightNonZero(lb) && RowHeight(lb) > 0
    requires y >= lb.protoItem.value.top
    requires 0 <= i < |lb.items|
    ensures GetItemIndex(lb, y) == i <==>
              var h := RowHeight(lb);
              var row := i - lb.itemOffset;
              row * h <= y - lb.protoItem.value.top < row * h + h
  {
    var h := RowHeight(lb);
    var d := y - lb.protoItem.value.top;
    var q := TruncDiv(d, h);
    var row := i - lb.itemOffset;
    if row * h <= d < row * h + h {
      RowIsUnique(q, row, d, h);
    }
  }

  /** Whole rows do not overlap. */
  lemma RowIsUnique(q: int, row: int, d: int, h: int)
    requires h > 0
    requires q * h <= d < q * h + h
    requires row * h <= d < row * h + h
    ensures q == row
  {
    MulStep(q, row, h);
    MulStep(row, q, h);
  }

  /** A smaller row ends no lower than where a larger one starts. */
  lemma MulStep(a: int, b: int, h: int)
    requires h > 0
    ensures a < b ==> a * h + h <= b * h
  {
    if a < b {
      MulMono(a + 1, b, h);
    }
  }

  lemma MulMono(a: int, b: int, h: int)
    requires a <= b && h > 0
    ensures a * h <= b * h
  {
    assert b * h - a * h == (b - a) * h;
  }

  /**
   * Because the division truncates toward zero, a point less than one row
   * ABOVE the first row still hits the item in the first row.
   */
  lemma JustAboveFirstRowHitsIt(lb: ListBox, y: int)
    requires lb.protoItem.Some? && RowHeightNonZero(lb) && RowHeight(lb) > 0
    requires lb.protoItem.value.top - RowHeight(lb) < y < lb.protoItem.value.top
    requires 0 <= lb.itemOffset < |lb.items|
    ensures GetItemIndex(lb, y) == lb.itemOffset
  {
  }

  /** A handler's verdict together with the control's new state. */
  datatype Handled = Handled(listBox: ListBox, handled: bool)

  /** Moving the mouse highlights the item under it (or none); the event is not consumed. */
  function HandleMouseMotion(lb: ListBox, y: int): (r: Handled)
    requires RowHeightNonZero(lb)
    ensures !r.handled
    ensures r.listBox == lb.(hilightedIndex := r.listBox.hilightedIndex)
    ensures r.listBox.hilightedIndex == GetItemIndex(lb, y)
    ensures HighlightValid(r.listBox)
  {
    Handled(lb.(hilightedIndex := GetItemIndex(lb, y)), false)
  }

  /**
   * The callback invocation a click causes: the list box's tag and the tag
   * of the clicked item.
   */
  datatype ItemClicked = ItemClicked(controlTag: string, itemTag: string)

  /**
   * A click on a row holding an item notifies the registered callback with
   * that item's tag and is consumed; a click elsewhere, or with no callback
   * registered, is not.
   */
  function HandleClick(lb: ListBox, y: int, hasCallback: bool): (r: Option<ItemClicked>)
    requires RowHeightNonZero(lb)
    ensures GetItemIndex(lb, y) == -1 ==> r.None?
    ensures !hasCallback ==> r.None?
    ensures r.Some? ==> exists i :: 0 <= i < |lb.items| && GetItemIndex(lb, y) == i
                                    && r.value == ItemClicked(lb.tag, lb.items[i].tag)
    ensures hasCallback && GetItemIndex(lb, y) != -1 ==> r.Some?
  {
    var idx := GetItemIndex(lb, y);
    if idx == -1 then Option.None
    else if hasCallback then Some(ItemClicked(lb.tag, lb.items[idx].tag))
    else Option.None
  }

  /**
   * A click at or below the first row, inside the row that shows item i,
   * notifies the registered callback with item i's tag.
   */
  lemma ClickOnRowNotifiesItem(lb: ListBox, y: int, i: int)
    requires lb.protoItem.Some? && RowHeightNonZero(lb) && RowHeight(lb) > 0
    requires y >= lb.protoItem.value.top
    requires 0 <= i < |lb.items|
    requires var row := i - lb.itemOffset;
             row * RowHeight(lb) <= y - lb.protoItem.value.top < row * RowHeight(lb) + RowHeight(lb)
    ensures HandleClick(lb, y, true) == Some(ItemClicked(lb.tag, lb.items[i].tag))
    ensures ClickHandled(lb, y, true)
  {
    HitTestFindsRow(lb, y, i);
  }

  /** Whether a click is consumed: exactly when it notifies the callback. */
  function ClickHandled(lb: ListBox, y: int, hasCallback: bool): (handled: bool)
    requires RowHeightNonZero(lb)
    ensures handled <==> hasCallback && GetItemIndex(lb, y) != -1
  {
    HandleClick(lb, y, hasCallback).Some?
  }

  // ---------------------------------------------------------------------------
  // Scrolling and focus

  /**
   * A wheel event scrolls one item: down (y < 0) while items remain below the
   * last row, up (y > 0) while the first item is not at the top. Any
   * non-zero `y` is consumed, even when it cannot scroll.
   */
  function HandleMouseWheel(lb: ListBox, y: int): (r: Handled)
    ensures y == 0 ==> r == Handled(lb, false)
    ensures y != 0 ==> r.handled
    ensures r.listBox == lb.(itemOffset := r.listBox.itemOffset)
    ensures y < 0 ==> r.listBox.itemOffset == lb.itemOffset + 1
                        || r.listBox.itemOffset == lb.itemOffset
    ensures y < 0 ==> (r.listBox.itemOffset == lb.itemOffset + 1 <==>
                         ToSize(|lb.items| - lb.itemOffset) > ToSize(lb.slotCount))
    ensures y > 0 ==> (r.listBox.itemOffset == lb.itemOffset - 1 <==> lb.itemOffset > 0)
    ensures y > 0 && lb.itemOffset <= 0 ==> r.listBox.itemOffset == lb.itemOffset
  {
    if y < 0 then
      var offset := if ToSize(|lb.items| - lb.itemOffset) > ToSize(lb.slotCount) then lb.itemOffset + 1 else lb.itemOffset;
      Handled(lb.(itemOffset := offset), true)
    else if y > 0 then
      Handled(lb.(itemOffset := if lb.itemOffset > 0 then lb.itemOffset - 1 else lb.itemOffset), true)
    else
      Handled(lb, false)
  }

  function Max(a: int, b: int): int {
    if a >= b then a else b
  }

  /** The largest offset scrolling down can reach: the last item shown in the last row. */
  function MaxScrollOffset(lb: ListBox): int {
    Max(0, |lb.items| - lb.slotCount)
  }

  /**
   * In a well-formed list box one wheel event keeps the offset between zero
   * and the largest offset that still fills the last row.
   */
  lemma WheelKeepsOffsetInRange(lb: ListBox, y: int)
    requires WellFormed(lb) && lb.itemOffset <= MaxScrollOffset(lb)
    ensures var r := HandleMouseWheel(lb, y).listBox;
            WellFormed(r) && 0 <= r.itemOffset <= MaxScrollOffset(r)
  {
  }

  /** A sequence of wheel events. */
  function Scroll(lb: ListBox, ys: seq<int>): ListBox
    decreases |ys|
  {
    if |ys| == 0 then lb else Scroll(HandleMouseWheel(lb, ys[0]).listBox, ys[1..])
  }

  /**
   * However long the user scrolls, the offset never goes negative and never
   * passes the point where the last item sits in the last row.
   */
  lemma {:induction false} ScrollingStaysInRange(lb: ListBox, ys: seq<int>)
    requires WellFormed(lb) && lb.itemOffset <= MaxScrollOffset(lb)
    ensures WellFormed(Scroll(lb, ys))
    ensures 0 <= Scroll(lb, ys).itemOffset <= MaxScrollOffset(lb)
    ensures Scroll(lb, ys).items == lb.items && Scroll(lb, ys).slotCount == lb.slotCount
    decreases |ys|
  {
    if |ys| > 0 {
      WheelKeepsOffsetInRange(lb, ys[0]);
      ScrollingStaysInRange(HandleMouseWheel(lb, ys[0]).listBox, ys[1..]);
    }
  }

  /** The highlight marks no item (-1) or an existing one. */
  predicate HighlightValid(lb: ListBox) {
    lb.hilightedIndex == -1 || 0 <= lb.hilightedIndex < |lb.items|
  }

  /** Losing focus clears the highlight; gaining it leaves the highlight alone. */
  function SetFocus(lb: ListBox, focus: bool): (r: ListBox)
    ensures r.focus == focus
    ensures !focus ==> r.hilightedIndex == -1
    ensures focus ==> r.hilightedIndex == lb.hilightedIndex
    ensures r == lb.(focus := focus, hilightedIndex := r.hilightedIndex)
  {
    if focus then lb.(focus := true) else lb.(focus := false, hilightedIndex := -1)
  }

  /**
   * The highlight invariant: mouse motion establishes it, losing focus
   * establishes it, and focus changes, appends and wheel events keep it.
   */
  lemma HighlightStaysValid(lb: ListBox, focus: bool, item: Item, y: int)
    requires RowHeightNonZero(lb)
    ensures HighlightValid(HandleMouseMotion(lb, y).listBox)
    ensures HighlightValid(SetFocus(lb, false))
    ensures HighlightValid(lb) ==> HighlightValid(SetFocus(lb, focus))
    ensures HighlightValid(lb) ==> HighlightValid(Add(lb, item))
    ensures HighlightValid(lb) ==> HighlightValid(HandleMouseWheel(lb, y).listBox)
  {
  }
}
