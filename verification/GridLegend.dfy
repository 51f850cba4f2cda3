/**
  The legend of the trace viewer: one loop computes the height, a second one places the items, row by row
  from left to right.  Text extents are the same in both.
*/
module GridLegend {

  datatype Extent = Extent(width: real, height: real)

  /** The area of one item; `row` counts the line breaks before it. */
  datatype Box = Box(x: real, y: real, width: real, height: real, row: nat)

  datatype Line = Line(height: real, top: real, used: real, row: nat)

  function Start(padding: real): Line { Line(0.0, padding, padding, 0) }

  /** What one item does to the current line: it opens a new one unless it fits. */
  function Advance(l: Line, item: Extent, padding: real, width: real): Line {
    var itemWidth := padding + padding + item.width + padding;
    var itemHeight := item.height + padding;
    var h := if itemHeight > l.height then itemHeight else l.height;
    if l.used + itemWidth > width then Line(h, l.top + h, padding + itemWidth, l.row + 1)
    else Line(h, l.top, l.used + itemWidth, l.row)
  }

  function After(items: seq<Extent>, padding: real, width: real): Line {
    if items == [] then Start(padding)
    else Advance(After(items[..|items| - 1], padding, width), items[|items| - 1], padding, width)
  }

  function HeightOf(items: seq<Extent>, padding: real, width: real): real {
    After(items, padding, width).top + After(items, padding, width).height
  }

  ghost predicate ValidItems(items: seq<Extent>, padding: real) {
    padding >= 0.0 && forall k | 0 <= k < |items| :: items[k].width >= 0.0 && items[k].height >= 0.0
  }

  // ---------- A good layout ----------

  /** Right of one another in one row, below one another in different rows. */
  ghost predicate Apart(a: Box, b: Box) {
    if a.row == b.row then a.y == b.y && a.x + a.width <= b.x else a.row < b.row && a.y + a.height <= b.y
  }

  ghost predicate PairwiseApart(boxes: seq<Box>) {
    forall i, j | 0 <= i < j < |boxes| :: Apart(boxes[i], boxes[j])
  }

  ghost predicate Alone(boxes: seq<Box>, i: nat)
    requires i < |boxes|
  {
    forall j | 0 <= j < |boxes| && j != i :: boxes[j].row != boxes[i].row
  }

  /** Every row fits the width, unless it holds a single item too wide for any row. */
  ghost predicate RowsFit(boxes: seq<Box>, padding: real, width: real) {
    forall i: nat | i < |boxes| ::
      boxes[i].x + boxes[i].width <= width || (boxes[i].x == padding && Alone(boxes, i))
  }

  /** Each box has the size its text asks for, and none starts left of or above the padding. */
  ghost predicate Sized(boxes: seq<Box>, items: seq<Extent>, padding: real) {
    && |boxes| == |items|
    && forall i | 0 <= i < |boxes| ::
         && boxes[i].width == padding + padding + items[i].width + padding
         && boxes[i].height == items[i].height + padding
         && boxes[i].x >= padding && boxes[i].y >= padding
  }

  ghost predicate Inside(boxes: seq<Box>, bottom: real) {
    forall i | 0 <= i < |boxes| :: boxes[i].y + boxes[i].height <= bottom
  }

  /** The height of the tallest item, with the padding below it. */
  function Tallest(items: seq<Extent>, padding: real): real {
    if items == [] then 0.0
    else
      var h, last := Tallest(items[..|items| - 1], padding), items[|items| - 1].height + padding;
      if last > h then last else h
  }

  /**
    Where an item goes, in terms of the item before it: next to it if it still fits, and otherwise to the left
    end of a new row, below it by the height of the tallest item so far.
  */
  ghost predicate Follows(a: Box, b: Box, tallest: real, padding: real, width: real) {
    if a.x + a.width + b.width <= width then b.row == a.row && b.x == a.x + a.width && b.y == a.y
    else b.row == a.row + 1 && b.x == padding && b.y == a.y + tallest
  }

  /** The first item follows an empty box in the upper left corner. */
  function Corner(padding: real): Box { Box(padding, padding, 0.0, 0.0, 0) }

  function BoxBefore(boxes: seq<Box>, k: nat, padding: real): Box
    requires k <= |boxes|
  {
    if k == 0 then Corner(padding) else boxes[k - 1]
  }

  ghost predicate FollowsAt(boxes: seq<Box>, items: seq<Extent>, k: nat, padding: real, width: real)
    requires k < |boxes| == |items|
  {
    Follows(BoxBefore(boxes, k, padding), boxes[k], Tallest(items[..k + 1], padding), padding, width)
  }

  /** All items in turn; this determines the layout. */
  ghost predicate Flows(boxes: seq<Box>, items: seq<Extent>, padding: real, width: real) {
    |boxes| == |items| && forall k: nat | k < |boxes| :: FollowsAt(boxes, items, k, padding, width)
  }

  // ---------- What holds while items are placed ----------

  ghost predicate SoFar(boxes: seq<Box>, l: Line, padding: real, width: real) {
    && l.height >= 0.0 && l.top >= padding && l.used >= padding
    && forall i: nat | i < |boxes| ::
         && boxes[i].row <= l.row && boxes[i].height <= l.height
         && (boxes[i].row == l.row ==> boxes[i].y == l.top && boxes[i].x + boxes[i].width <= l.used)
         && (boxes[i].row < l.row ==> boxes[i].y + boxes[i].height <= l.top)
  }

  function Place(l: Line, item: Extent, padding: real): Box {
    var itemWidth := padding + padding + item.width + padding;
    Box(l.used - itemWidth, l.top, itemWidth, item.height + padding, l.row)
  }

  /** What the drawing loop has achieved after the items `seen`: the layout is good so far. */
  ghost predicate Drawn(boxes: seq<Box>, seen: seq<Extent>, l: Line, padding: real, width: real) {
    && l == After(seen, padding, width)
    && SoFar(boxes, l, padding, width) && Sized(boxes, seen, padding)
    && PairwiseApart(boxes) && RowsFit(boxes, padding, width)
  }

  /** The current line is where the last item was placed. */
  ghost predicate AtEnd(boxes: seq<Box>, items: seq<Extent>, l: Line, padding: real) {
    var last := BoxBefore(boxes, |boxes|, padding);
    l.height == Tallest(items, padding) && l.top == last.y && l.used == last.x + last.width && l.row == last.row
  }

  /** And it is the one that `Flows` describes. */
  ghost predicate Flowing(boxes: seq<Box>, seen: seq<Extent>, l: Line, padding: real, width: real) {
    Flows(boxes, seen, padding, width) && AtEnd(boxes, seen, l, padding)
  }

  lemma FlowsAppend(boxes: seq<Box>, items: seq<Extent>, box: Box, item: Extent, padding: real, width: real)
    requires Flows(boxes, items, padding, width)
    requires Follows(BoxBefore(boxes, |boxes|, padding), box, Tallest(items + [item], padding), padding, width)
    ensures Flows(boxes + [box], items + [item], padding, width)
  {
    var boxes', items' := boxes + [box], items + [item];
    forall k: nat | k < |boxes'| ensures FollowsAt(boxes', items', k, padding, width) {
      if k < |boxes| {
        assert FollowsAt(boxes, items, k, padding, width);
        assert BoxBefore(boxes', k, padding) == BoxBefore(boxes, k, padding) && items'[..k + 1] == items[..k + 1];
      } else {
        assert BoxBefore(boxes', k, padding) == BoxBefore(boxes, |boxes|, padding) && items'[..k + 1] == items';
      }
    }
  }

  lemma TallestNext(items: seq<Extent>, item: Extent, padding: real)
    ensures var h := item.height + padding;
            Tallest(items + [item], padding) == if h > Tallest(items, padding) then h else Tallest(items, padding)
  {
    assert (items + [item])[..|items|] == items;
  }

  lemma FlowingNext(boxes: seq<Box>, seen: seq<Extent>, l: Line, item: Extent, padding: real, width: real)
    requires Flowing(boxes, seen, l, padding, width)
    ensures var l' := Advance(l, item, padding, width);
            Flowing(boxes + [Place(l', item, padding)], seen + [item], l', padding, width)
  {
    var l' := Advance(l, item, padding, width);
    TallestNext(seen, item, padding);
    FlowsAppend(boxes, seen, Place(l', item, padding), item, padding, width);
  }

  lemma AfterNext(seen: seq<Extent>, item: Extent, padding: real, width: real)
    ensures After(seen + [item], padding, width) == Advance(After(seen, padding, width), item, padding, width)
  {
    assert (seen + [item])[..|seen|] == seen;
  }

  lemma DrawnNext(boxes: seq<Box>, seen: seq<Extent>, l: Line, item: Extent, padding: real, width: real)
    requires padding >= 0.0 && item.width >= 0.0 && item.height >= 0.0 && Drawn(boxes, seen, l, padding, width)
    ensures var l' := Advance(l, item, padding, width);
            Drawn(boxes + [Place(l', item, padding)], seen + [item], l', padding, width)
  {
    AfterNext(seen, item, padding, width);
    PlaceNext(boxes, seen, l, item, padding, width);
  }

  ghost predicate Placed(boxes: seq<Box>, seen: seq<Extent>, l: Line, padding: real, width: real) {
    Drawn(boxes, seen, l, padding, width) && Flowing(boxes, seen, l, padding, width)
  }

  lemma PlacedNext(boxes: seq<Box>, items: seq<Extent>, k: nat, l: Line, padding: real, width: real)
    requires ValidItems(items, padding) && k < |items| && Placed(boxes, items[..k], l, padding, width)
    ensures var l' := Advance(l, items[k], padding, width);
            Placed(boxes + [Place(l', items[k], padding)], items[..k + 1], l', padding, width)
  {
    assert items[..k + 1] == items[..k] + [items[k]];
    DrawnNext(boxes, items[..k], l, items[k], padding, width);
    FlowingNext(boxes, items[..k], l, items[k], padding, width);
  }

  lemma DrawnAll(boxes: seq<Box>, items: seq<Extent>, l: Line, padding: real, width: real)
    requires Placed(boxes, items, l, padding, width)
    ensures Sized(boxes, items, padding) && PairwiseApart(boxes) && RowsFit(boxes, padding, width)
    ensures Flows(boxes, items, padding, width) && Inside(boxes, HeightOf(items, padding, width))
    ensures HeightOf(items, padding, width) == BoxBefore(boxes, |boxes|, padding).y + Tallest(items, padding)
  {
  }

  lemma PlaceNext(boxes: seq<Box>, items: seq<Extent>, l: Line, item: Extent, padding: real, width: real)
    requires padding >= 0.0 && item.width >= 0.0 && item.height >= 0.0
    requires SoFar(boxes, l, padding, width) && Sized(boxes, items, padding)
    requires PairwiseApart(boxes) && RowsFit(boxes, padding, width)
    ensures var l' := Advance(l, item, padding, width);
            var boxes' := boxes + [Place(l', item, padding)];
            && SoFar(boxes', l', padding, width) && Sized(boxes', items + [item], padding)
            && PairwiseApart(boxes') && RowsFit(boxes', padding, width)
  {
  }

  class TopLegendRenderer {
    var padding: real
    var legends: seq<Extent>
    var width: real
    var height: real

    constructor (legends: seq<Extent>)
      ensures padding == 10.0 && this.legends == legends
    {
      padding, this.legends := 10.0, legends;
      width, height := 0.0, 0.0;
    }

    /** The statements that both loops execute for an item; the layout uses neither `x` nor the row number. */
    method NextItem(item: Extent, lineHeight: real, totalHeight: real, lineUsed: real, row: nat)
      returns (lineHeight': real, totalHeight': real, lineUsed': real, row': nat, x: real)
      ensures var l := Line(lineHeight', totalHeight', lineUsed', row');
              && l == Advance(Line(lineHeight, totalHeight, lineUsed, row), item, padding, width)
              && x == Place(l, item, padding).x
    {
      lineHeight', totalHeight', lineUsed', row' := lineHeight, totalHeight, lineUsed, row;
      var itemWidth := padding + padding + item.width + padding;
      var itemHeight := item.height + padding;
      if itemHeight > lineHeight {
        lineHeight' := itemHeight;
      }
      if lineUsed + itemWidth > width {
        lineUsed' := padding + itemWidth;
        totalHeight' := totalHeight + lineHeight';
        row' := row + 1;
      } else {
        lineUsed' := lineUsed + itemWidth;
      }
      x := lineUsed' - itemWidth;
    }

    method Layout(width: real)
      modifies this
      ensures this.width == width && legends == old(legends) && padding == old(padding)
      ensures height == HeightOf(legends, padding, width)
    {
      this.width := width;
      var lineHeight, totalHeight, lineUsed := 0.0, padding, padding;
      var row := 0;
      for k := 0 to |legends|
        invariant this.width == width && legends == old(legends) && padding == old(padding)
        invariant Line(lineHeight, totalHeight, lineUsed, row) == After(legends[..k], padding, width)
      {
        assert legends[..k + 1][..k] == legends[..k];
        var x;
        lineHeight, totalHeight, lineUsed, row, x := NextItem(legends[k], lineHeight, totalHeight, lineUsed, row);
      }
      assert legends[..|legends|] == legends;
      totalHeight := totalHeight + lineHeight;
      height := totalHeight;
    }

    /** The area that is drawn for an item at the end of the current line. */
    function BoxAt(item: Extent, totalHeight: real, x: real, row: nat): Box
      reads this`padding
    {
      Box(x, totalHeight, padding + padding + item.width + padding, item.height + padding, row)
    }

    /** The boxes of the items drawn; `HeightOf` is what `Layout` has computed for the same legends. */
    method Draw() returns (boxes: seq<Box>)
      requires ValidItems(legends, padding)
      ensures Sized(boxes, legends, padding) && PairwiseApart(boxes) && RowsFit(boxes, padding, width)
      ensures Flows(boxes, legends, padding, width) && Inside(boxes, HeightOf(legends, padding, width))
      ensures HeightOf(legends, padding, width) == BoxBefore(boxes, |boxes|, padding).y + Tallest(legends, padding)
    {
      boxes := [];
      var lineHeight, totalHeight, lineUsed := 0.0, padding, padding;
      var row := 0;
      ghost var l := Start(padding);
      for k := 0 to |legends|
        invariant row >= 0 && l == Line(lineHeight, totalHeight, lineUsed, row)
        invariant Placed(boxes, legends[..k], l, padding, width)
      {
        PlacedNext(boxes, legends, k, l, padding, width);
        var x;
        lineHeight, totalHeight, lineUsed, row, x := NextItem(legends[k], lineHeight, totalHeight, lineUsed, row);
        l := Advance(l, legends[k], padding, width);
        var box := BoxAt(legends[k], totalHeight, x, row);
        assert box == Place(l, legends[k], padding);
        boxes := boxes + [box];
      }
      assert legends[..|legends|] == legends;
      DrawnAll(boxes, legends, l, padding, width);
    }

    /** What is drawn lies within the height that the layout has stored. */
    method LayoutAndDraw(width: real) returns (boxes: seq<Box>)
      requires ValidItems(legends, padding)
      modifies this
      ensures this.width == width && legends == old(legends) && padding == old(padding)
      ensures height == BoxBefore(boxes, |boxes|, padding).y + Tallest(legends, padding) && Inside(boxes, height)
      ensures Flows(boxes, legends, padding, width)
      ensures Sized(boxes, legends, padding) && PairwiseApart(boxes) && RowsFit(boxes, padding, width)
    {
      Layout(width);
      boxes := Draw();
    }
  }
}
