/**
 The state of the virtualized masonry hook: the column count, the column
 accumulators and the visible placements it stores, and the scroll offset it
 keeps in a ref. Each method is one of the hook's effects or callbacks; the
 placement pass runs in place over an accumulator array and is proved equal to
 Masonry.LayoutOf.
 */
module MasonryHook {
  import opened Masonry

  class VirtualizedMasonry {
    var columns: nat
    var columnHeights: seq<real>
    var visibleItems: seq<Placement>
    var scrollTop: real

    /** The accumulators always match the column count. */
    ghost predicate Valid()
      reads this
    {
      |columnHeights| == columns
    }

    /** The hook's initial state: no columns yet, nothing visible, scrolled to the top. */
    constructor ()
      ensures Valid()
      ensures columns == 0 && columnHeights == [] && visibleItems == [] && scrollTop == 0.0
    {
      columns := 0;
      columnHeights := [];
      visibleItems := [];
      scrollTop := 0.0;
    }

    /** The geometry effect: a new column count and fresh zero accumulators. */
    method UpdateColumns(containerWidth: real, itemWidth: real, gap: real)
      requires itemWidth + gap != 0.0
      modifies this
      ensures Valid()
      ensures columns == ColumnCount(containerWidth, itemWidth, gap) && columns >= 1
      ensures columnHeights == Zeros(columns)
      ensures visibleItems == old(visibleItems) && scrollTop == old(scrollTop)
    {
      var newColumns := ColumnCount(containerWidth, itemWidth, gap);
      columns := newColumns;
      columnHeights := Zeros(newColumns);
    }

    /**
     calculateLayout: with no columns yet it does nothing; otherwise it places every
     photo from fresh zero accumulators and keeps the placements that meet the window
     [scrollTop, scrollTop + containerHeight]. The new state depends only on the
     arguments, the column count and the scroll offset, never on the previous
     accumulators or visible items.
     */
    method CalculateLayout(items: seq<Photo>, itemWidth: real, gap: real, containerHeight: real)
      requires Valid() && AllWellFormed(items)
      modifies this
      ensures Valid()
      ensures columns == old(columns) && scrollTop == old(scrollTop)
      ensures old(columns) == 0 ==>
                columnHeights == old(columnHeights) && visibleItems == old(visibleItems)
      ensures old(columns) >= 1 ==>
                Layout(columnHeights, visibleItems)
                  == LayoutOf(items, columns, itemWidth, gap, scrollTop, containerHeight)
    {
      if columns == 0 {
        return;
      }
      var heights, visible := RunPass(items, columns, itemWidth, gap, scrollTop, containerHeight);
      columnHeights := heights;
      visibleItems := visible;
    }

    /** handleScroll: record the new offset, then run calculateLayout with it. */
    method HandleScroll(scrollPosition: real, items: seq<Photo>, itemWidth: real, gap: real, containerHeight: real)
      requires Valid() && AllWellFormed(items)
      modifies this
      ensures Valid()
      ensures columns == old(columns) && scrollTop == scrollPosition
      ensures old(columns) == 0 ==>
                columnHeights == old(columnHeights) && visibleItems == old(visibleItems)
      ensures old(columns) >= 1 ==>
                Layout(columnHeights, visibleItems)
                  == LayoutOf(items, columns, itemWidth, gap, scrollPosition, containerHeight)
    {
      scrollTop := scrollPosition;
      CalculateLayout(items, itemWidth, gap, containerHeight);
    }

    /** totalHeight: the tallest accumulator (there is at least one column once the geometry effect has run). */
    function TotalHeight(): (r: real)
      reads this
      requires Valid() && columns >= 1
      ensures r in columnHeights
      ensures forall j :: 0 <= j < |columnHeights| ==> columnHeights[j] <= r
    {
      MaxOf(columnHeights)
    }
  }

  /**
   The body of calculateLayout: one forEach over the photos that updates a fresh
   accumulator array in place and appends each visible placement. Its result is
   exactly the layout specification.
   */
  method RunPass(items: seq<Photo>, columns: nat, itemWidth: real, gap: real,
                 scrollTop: real, containerHeight: real)
    returns (columnHeights: seq<real>, visibleItems: seq<Placement>)
    requires columns >= 1 && AllWellFormed(items)
    ensures Layout(columnHeights, visibleItems)
         == LayoutOf(items, columns, itemWidth, gap, scrollTop, containerHeight)
  {
    var heights := new real[columns](_ => 0.0);
    var visible: seq<Placement> := [];
    assert heights[..] == Zeros(columns);
    assert items[..0] == [];
    assert PlaceAll(items[..0], columns, itemWidth, gap) == Pass(Zeros(columns), []);
    var i := 0;
    while i < |items|
      invariant 0 <= i <= |items|
      invariant heights.Length == columns
      invariant heights[..] == PlaceAll(items[..i], columns, itemWidth, gap).heights
      invariant visible == VisibleOf(PlaceAll(items[..i], columns, itemWidth, gap).placed, scrollTop, containerHeight)
    {
      var p := PlaceNext(heights, items[i], itemWidth, gap);
      if p.top + p.height >= scrollTop && p.top <= scrollTop + containerHeight {
        visible := visible + [p];
      }
      LayoutStep(items, i, columns, itemWidth, gap, scrollTop, containerHeight);
      i := i + 1;
    }
    assert items[..i] == items;
    columnHeights := heights[..];
    visibleItems := visible;
  }

  /**
   The body of the forEach for one photo: pick the shortest column, size the photo,
   read its top, and raise that column's accumulator in place by height + gap.
   */
  method PlaceNext(heights: array<real>, item: Photo, itemWidth: real, gap: real) returns (p: Placement)
    requires heights.Length > 0 && WellFormed(item)
    modifies heights
    ensures p == Place(old(heights[..]), item, itemWidth, gap)
    ensures heights[..] == Grow(old(heights[..]), item, itemWidth, gap)
  {
    var c := ShortestColumn(heights[..]);
    var itemHeight := ItemHeight(itemWidth, item);
    var top := heights[c];
    var left := ColumnLeft(c, itemWidth, gap);
    ghost var before := heights[..];
    heights[c] := heights[c] + itemHeight + gap;
    assert heights[..] == before[c := before[c] + itemHeight + gap];
    p := Placement(item, top, left, itemWidth, itemHeight);
  }

  /**
   A resize that changes only the container width and keeps the column count,
   the container height and the photos. The layout callback depends on the
   photos, the column count, the item width, the gap and the container height,
   but not on the container width, so the rerun effect does not fire after the
   geometry effect has reset the accumulators. Until the next scroll or a change
   of photos or container height, totalHeight is 0 while the old visible
   placements stay on screen. (A resize that also changes the container height
   changes the callback, and the rerun effect lays the columns out again.)
   */
  method ResizeScenario()
  {
    var a, b := Photo(1, 1000.0, 800.0), Photo(2, 1200.0, 900.0);
    var pa, pb := Placement(a, 0.0, 0.0, 300.0, 240.0), Placement(b, 0.0, 320.0, 300.0, 225.0);
    GridFixtureExample();
    var hook := new VirtualizedMasonry();
    hook.UpdateColumns(1000.0, 300.0, 20.0);
    assert hook.columns == 3;
    hook.CalculateLayout([a, b], 300.0, 20.0, 1000.0);
    assert hook.visibleItems == [pa, pb];
    GridFixtureHeights();
    assert hook.columnHeights == [260.0, 245.0, 0.0];
    assert hook.TotalHeight() == 260.0;
    // the container grows by 10 pixels: still three columns, so no relayout runs
    assert (1030.0 / 320.0).Floor == 3;
    hook.UpdateColumns(1010.0, 300.0, 20.0);
    assert hook.columns == 3 && hook.columnHeights == [0.0, 0.0, 0.0];
    assert hook.TotalHeight() == 0.0;
    assert hook.visibleItems == [pa, pb];
  }
}
