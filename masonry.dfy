/**
 The layout engine of the virtualized masonry grid, as pure functions: the
 column-count rule, the shortest-column choice, the aspect-ratio height, one
 placement pass over all photos, the viewport filter and the total height.
 The stateful hook that runs the pass in place lives in module MasonryHook.
 */
module Masonry {

  /** The part of a photo record the layout reads: its id and intrinsic size. */
  datatype Photo = Photo(id: int, width: real, height: real)

  /** One computed rectangle of the grid (MasonryItem in the hook). */
  datatype Placement = Placement(item: Photo, top: real, left: real, width: real, height: real)

  /** What a full pass leaves behind: the column accumulators and every placement, in input order. */
  datatype Pass = Pass(heights: seq<real>, placed: seq<Placement>)

  /** What the hook keeps of a pass: the accumulators and the visible placements. */
  datatype Layout = Layout(heights: seq<real>, visible: seq<Placement>)

  /** A photo whose aspect ratio is defined (the hook divides by both sides). */
  predicate WellFormed(p: Photo)
  {
    p.width > 0.0 && p.height > 0.0
  }

  predicate AllWellFormed(items: seq<Photo>)
  {
    forall i :: 0 <= i < |items| ==> WellFormed(items[i])
  }

  // ---------------------------------------------------------------------------
  // Column count
  // ---------------------------------------------------------------------------

  /** How many columns fit: the floor of the container width plus one gap over the pitch, but never fewer than one. */
  function ColumnCount(containerWidth: real, itemWidth: real, gap: real): (n: nat)
    requires itemWidth + gap != 0.0
    ensures n >= 1
    // With a positive pitch (itemWidth + gap), n photos and the n - 1 gaps between
    // them fit in the container, unless n is the clamp value 1, and n + 1 never fit:
    // n * pitch - gap is the width of a row of n columns.
    ensures itemWidth + gap > 0.0 ==>
              (n == 1 || (n as real) * (itemWidth + gap) - gap <= containerWidth)
    ensures itemWidth + gap > 0.0 ==>
              ((n + 1) as real) * (itemWidth + gap) - gap > containerWidth
  {
    var r := (containerWidth + gap) / (itemWidth + gap);
    var n := if r.Floor < 1 then 1 else r.Floor;
    if itemWidth + gap > 0.0 then ClampedFloorBounds(containerWidth + gap, itemWidth + gap, n); n else n
  }

  /** The clamped floor of a / d brackets a between multiples of d. */
  lemma ClampedFloorBounds(a: real, d: real, n: int)
    requires d > 0.0 && n == (if (a / d).Floor < 1 then 1 else (a / d).Floor)
    ensures n == 1 || (n as real) * d <= a
    ensures ((n + 1) as real) * d > a
  {
    var r := a / d;
    var f := r.Floor;
    assert r * d == a;
    MulLe(f as real, r, d);
    MulLt(r, (f + 1) as real, d);
    assert a < ((f + 1) as real) * d;
    MulLe((f + 1) as real, (n + 1) as real, d);
    assert ((f + 1) as real) * d <= ((n + 1) as real) * d;
  }

  lemma MulLe(x: real, y: real, d: real)
    requires x <= y && d > 0.0
    ensures x * d <= y * d
  {
    assert (y - x) * d >= 0.0;
  }

  lemma MulLt(x: real, y: real, d: real)
    requires x < y && d > 0.0
    ensures x * d < y * d
  {
    assert (y - x) * d > 0.0;
  }

  /** A freshly sized accumulator array: n zeros. */
  function Zeros(n: nat): (r: seq<real>)
    ensures |r| == n && forall i :: 0 <= i < n ==> r[i] == 0.0
  {
    seq(n, _ => 0.0)
  }

  // ---------------------------------------------------------------------------
  // Shortest column: the first position holding the smallest accumulator
  // ---------------------------------------------------------------------------

  /** The minimum of a non-empty list: an element that no other element is below. */
  function MinOf(h: seq<real>): (m: real)
    requires |h| > 0
    ensures m in h
    ensures forall j :: 0 <= j < |h| ==> m <= h[j]
  {
    if |h| == 1 then h[0]
    else
      var rest := MinOf(h[1..]);
      if h[0] <= rest then h[0] else rest
  }

  /** The maximum of a non-empty list: an element that no other element exceeds. */
  function MaxOf(h: seq<real>): (m: real)
    requires |h| > 0
    ensures m in h
    ensures forall j :: 0 <= j < |h| ==> h[j] <= m
  {
    if |h| == 1 then h[0]
    else
      var rest := MaxOf(h[1..]);
      if h[0] >= rest then h[0] else rest
  }

  /** The first position of a value that occurs in the list. */
  function IndexOf(h: seq<real>, x: real): (i: nat)
    requires x in h
    ensures i < |h| && h[i] == x
    ensures forall j :: 0 <= j < i ==> h[j] != x
  {
    if h[0] == x then 0 else 1 + IndexOf(h[1..], x)
  }

  /** The column the next photo goes into. */
  function ShortestColumn(h: seq<real>): (c: nat)
    requires |h| > 0
    ensures c < |h|
    // its accumulator is minimal ...
    ensures forall j :: 0 <= j < |h| ==> h[c] <= h[j]
    // ... and every column before it is strictly taller: ties go to the lowest index
    ensures forall j :: 0 <= j < c ==> h[j] > h[c]
  {
    IndexOf(h, MinOf(h))
  }

  // ---------------------------------------------------------------------------
  // One placement
  // ---------------------------------------------------------------------------

  /** itemWidth / (width / height): the display height at the fixed display width. */
  function ItemHeight(itemWidth: real, p: Photo): (r: real)
    requires WellFormed(p)
    // the displayed rectangle has the photo's aspect ratio
    ensures r * p.width == itemWidth * p.height
    ensures itemWidth >= 0.0 ==> r >= 0.0
  {
    var aspectRatio := p.width / p.height;
    assert aspectRatio * p.height == p.width;
    assert aspectRatio > 0.0;
    var r := itemWidth / aspectRatio;
    assert r * aspectRatio == itemWidth;
    r
  }

  /** The x offset of column c: c * (itemWidth + gap). */
  function ColumnLeft(c: nat, itemWidth: real, gap: real): (r: real)
    ensures c == 0 ==> r == 0.0
    ensures itemWidth + gap >= 0.0 ==> r >= 0.0
  {
    (c as real) * (itemWidth + gap)
  }

  /** With a non-negative gap, a column ends at or before the next one starts: columns never overlap. */
  lemma ColumnsDoNotOverlap(c: nat, d: nat, itemWidth: real, gap: real)
    requires c < d && itemWidth >= 0.0 && gap >= 0.0
    ensures ColumnLeft(c, itemWidth, gap) + itemWidth + gap <= ColumnLeft(d, itemWidth, gap)
  {
    var pitch := itemWidth + gap;
    assert (d as real) * pitch >= ((c + 1) as real) * pitch by {
      if pitch > 0.0 {
        MulLe((c + 1) as real, d as real, pitch);
      }
    }
    assert ((c + 1) as real) * pitch == (c as real) * pitch + pitch;
  }

  /** The rectangle the next photo gets, given the accumulators before it. */
  function Place(h: seq<real>, item: Photo, itemWidth: real, gap: real): (p: Placement)
    requires |h| > 0 && WellFormed(item)
    ensures p.item == item && p.width == itemWidth
    // the photo sits on top of a shortest column ...
    ensures p.top in h && forall j :: 0 <= j < |h| ==> p.top <= h[j]
    // ... and keeps its aspect ratio
    ensures p.height * item.width == itemWidth * item.height
  {
    var c := ShortestColumn(h);
    Placement(item, h[c], ColumnLeft(c, itemWidth, gap), itemWidth, ItemHeight(itemWidth, item))
  }

  /** The accumulators after the next photo: its column grows by height + gap (gap included after every photo). */
  function Grow(h: seq<real>, item: Photo, itemWidth: real, gap: real): (r: seq<real>)
    requires |h| > 0 && WellFormed(item)
    ensures |r| == |h|
    // only the shortest column changes ...
    ensures forall j :: 0 <= j < |h| && j != ShortestColumn(h) ==> r[j] == h[j]
    // ... and the columns together grow by the photo's height plus one gap
    ensures Sum(r) == Sum(h) + ItemHeight(itemWidth, item) + gap
  {
    var c := ShortestColumn(h);
    SumUpdate(h, c, h[c] + ItemHeight(itemWidth, item) + gap);
    h[c := h[c] + ItemHeight(itemWidth, item) + gap]
  }

  /** The whole pass over a list of photos, from fresh zero accumulators, one photo after another. */
  function PlaceAll(items: seq<Photo>, columns: nat, itemWidth: real, gap: real): (s: Pass)
    requires columns >= 1 && AllWellFormed(items)
    ensures |s.heights| == columns
    ensures |s.placed| == |items|
    decreases |items|
  {
    if items == [] then Pass(Zeros(columns), [])
    else
      var prev := PlaceAll(items[..|items| - 1], columns, itemWidth, gap);
      var item := items[|items| - 1];
      Pass(Grow(prev.heights, item, itemWidth, gap),
           prev.placed + [Place(prev.heights, item, itemWidth, gap)])
  }

  // ---------------------------------------------------------------------------
  // Viewport filter and the whole layout
  // ---------------------------------------------------------------------------

  /** The span [top, top + height] meets the closed window [scrollTop, scrollTop + containerHeight]. */
  predicate IsVisible(p: Placement, scrollTop: real, containerHeight: real)
    // a placement lying wholly inside the window is kept ...
    ensures scrollTop <= p.top && p.height >= 0.0 && p.top + p.height <= scrollTop + containerHeight
            ==> IsVisible(p, scrollTop, containerHeight)
    // ... and one that starts below the window's bottom or ends above its top is not
    ensures p.top > scrollTop + containerHeight || p.top + p.height < scrollTop
            ==> !IsVisible(p, scrollTop, containerHeight)
  {
    p.top + p.height >= scrollTop && p.top <= scrollTop + containerHeight
  }

  /** The visible placements, kept in order. */
  function VisibleOf(ps: seq<Placement>, scrollTop: real, containerHeight: real): (r: seq<Placement>)
    ensures |r| <= |ps|
    decreases |ps|
  {
    if ps == [] then []
    else
      var last := ps[|ps| - 1];
      VisibleOf(ps[..|ps| - 1], scrollTop, containerHeight)
        + (if IsVisible(last, scrollTop, containerHeight) then [last] else [])
  }

  /** What calculateLayout stores: the accumulators of the pass and its visible placements. */
  function LayoutOf(items: seq<Photo>, columns: nat, itemWidth: real, gap: real,
                    scrollTop: real, containerHeight: real): (r: Layout)
    requires columns >= 1 && AllWellFormed(items)
    ensures |r.heights| == columns && |r.visible| <= |items|
    // everything shown was placed and meets the window
    ensures forall p :: p in r.visible ==>
              (p in PlaceAll(items, columns, itemWidth, gap).placed && IsVisible(p, scrollTop, containerHeight))
  {
    var s := PlaceAll(items, columns, itemWidth, gap);
    VisibleOfMembers(s.placed, scrollTop, containerHeight);
    Layout(s.heights, VisibleOf(s.placed, scrollTop, containerHeight))
  }

  /** The sum of the accumulators. */
  function Sum(h: seq<real>): real
  {
    if h == [] then 0.0 else h[0] + Sum(h[1..])
  }

  /** The vertical space the photos take, each followed by one gap. */
  function Extent(items: seq<Photo>, itemWidth: real, gap: real): real
    requires AllWellFormed(items)
    decreases |items|
  {
    if items == [] then 0.0
    else Extent(items[..|items| - 1], itemWidth, gap) + ItemHeight(itemWidth, items[|items| - 1]) + gap
  }

  // ---------------------------------------------------------------------------
  // Properties of one step
  // ---------------------------------------------------------------------------

  /** Appending one photo to the pass places it with the accumulators left by the photos before it. */
  lemma {:induction false} PlaceAllSnoc(items: seq<Photo>, x: Photo, columns: nat, itemWidth: real, gap: real)
    requires columns >= 1 && AllWellFormed(items) && WellFormed(x)
    ensures AllWellFormed(items + [x])
    ensures PlaceAll(items + [x], columns, itemWidth, gap)
         == var prev := PlaceAll(items, columns, itemWidth, gap);
            Pass(Grow(prev.heights, x, itemWidth, gap), prev.placed + [Place(prev.heights, x, itemWidth, gap)])
  {
    var xs := items + [x];
    assert xs[..|xs| - 1] == items;
    assert xs[|xs| - 1] == x;
  }

  /** One more photo of a prefix: the pass grows by one placement and the filter by at most that one. */
  lemma LayoutStep(items: seq<Photo>, i: nat, columns: nat, itemWidth: real, gap: real,
                   scrollTop: real, containerHeight: real)
    requires columns >= 1 && AllWellFormed(items) && i < |items|
    ensures AllWellFormed(items[..i]) && AllWellFormed(items[..i + 1])
    ensures var prev := PlaceAll(items[..i], columns, itemWidth, gap);
            var p := Place(prev.heights, items[i], itemWidth, gap);
            var next := PlaceAll(items[..i + 1], columns, itemWidth, gap);
            && next == Pass(Grow(prev.heights, items[i], itemWidth, gap), prev.placed + [p])
            && VisibleOf(next.placed, scrollTop, containerHeight)
               == VisibleOf(prev.placed, scrollTop, containerHeight)
                  + (if IsVisible(p, scrollTop, containerHeight) then [p] else [])
  {
    assert items[..i + 1] == items[..i] + [items[i]];
    PlaceAllSnoc(items[..i], items[i], columns, itemWidth, gap);
    var prev := PlaceAll(items[..i], columns, itemWidth, gap);
    var p := Place(prev.heights, items[i], itemWidth, gap);
    assert (prev.placed + [p])[..|prev.placed|] == prev.placed;
  }

  /** The passes over successive prefixes extend each other's placements. */
  lemma {:induction false} PlaceAllPrefix(items: seq<Photo>, k: nat, columns: nat, itemWidth: real, gap: real)
    requires columns >= 1 && AllWellFormed(items) && k <= |items|
    ensures AllWellFormed(items[..k])
    ensures PlaceAll(items, columns, itemWidth, gap).placed[..k] == PlaceAll(items[..k], columns, itemWidth, gap).placed
    decreases |items|
  {
    if k < |items| {
      var init := items[..|items| - 1];
      assert init[..k] == items[..k];
      PlaceAllPrefix(init, k, columns, itemWidth, gap);
    } else {
      assert items[..k] == items;
    }
  }

  /**
   The k-th photo gets the shortest column of the accumulators before it (the
   lowest-index minimum, see ShortestColumn); its top is that column's accumulator, its left the column
   index times the pitch, its width the fixed width and its height the ratio-keeping ItemHeight.
   */
  lemma PlacementOfItem(items: seq<Photo>, k: nat, columns: nat, itemWidth: real, gap: real)
    requires columns >= 1 && AllWellFormed(items) && k < |items|
    ensures AllWellFormed(items[..k])
    ensures var before := PlaceAll(items[..k], columns, itemWidth, gap).heights;
            var p := PlaceAll(items, columns, itemWidth, gap).placed[k];
            var c := ShortestColumn(before);
            && p.item == items[k]
              && p.top == before[c]
              && p.left == ColumnLeft(c, itemWidth, gap)
              && p.width == itemWidth
              && p.height == ItemHeight(itemWidth, items[k])
  {
    PlacedIsPlace(items, k, columns, itemWidth, gap);
  }

  /** The k-th placement of a pass is Place applied to the accumulators left by the first k photos. */
  lemma PlacedIsPlace(items: seq<Photo>, k: nat, columns: nat, itemWidth: real, gap: real)
    requires columns >= 1 && AllWellFormed(items) && k < |items|
    ensures AllWellFormed(items[..k])
    ensures PlaceAll(items, columns, itemWidth, gap).placed[k]
         == Place(PlaceAll(items[..k], columns, itemWidth, gap).heights, items[k], itemWidth, gap)
  {
    PlaceAllPrefix(items, k + 1, columns, itemWidth, gap);
    var pre := items[..k + 1];
    assert pre[..|pre| - 1] == items[..k];
    assert pre[|pre| - 1] == items[k];
    assert PlaceAll(items, columns, itemWidth, gap).placed[k] == PlaceAll(pre, columns, itemWidth, gap).placed[k];
  }

  /** Placing a photo raises only the chosen column, by exactly its height plus the gap. */
  lemma StepRaisesOnlyChosenColumn(items: seq<Photo>, x: Photo, columns: nat, itemWidth: real, gap: real)
    requires columns >= 1 && AllWellFormed(items) && WellFormed(x)
    ensures AllWellFormed(items + [x])
    ensures var before := PlaceAll(items, columns, itemWidth, gap).heights;
            var after := PlaceAll(items + [x], columns, itemWidth, gap).heights;
            var c := ShortestColumn(before);
            && |after| == |before|
            && after[c] == before[c] + ItemHeight(itemWidth, x) + gap
            && forall j :: 0 <= j < columns && j != c ==> after[j] == before[j]
  {
    PlaceAllSnoc(items, x, columns, itemWidth, gap);
  }

  // ---------------------------------------------------------------------------
  // Properties of the whole pass
  // ---------------------------------------------------------------------------

  lemma {:induction false} SumUpdate(h: seq<real>, c: nat, v: real)
    requires c < |h|
    ensures Sum(h[c := v]) == Sum(h) - h[c] + v
    decreases |h|
  {
    if c > 0 {
      assert h[c := v][1..] == h[1..][c - 1 := v];
      SumUpdate(h[1..], c - 1, v);
    } else {
      assert h[c := v][1..] == h[1..];
    }
  }

  lemma {:induction false} SumZeros(n: nat)
    ensures Sum(Zeros(n)) == 0.0
  {
    if n > 0 {
      assert Zeros(n)[1..] == Zeros(n - 1);
      SumZeros(n - 1);
    }
  }

  /** The accumulators together hold every photo's height plus one gap per photo. */
  lemma {:induction false} SumOfHeights(items: seq<Photo>, columns: nat, itemWidth: real, gap: real)
    requires columns >= 1 && AllWellFormed(items)
    ensures Sum(PlaceAll(items, columns, itemWidth, gap).heights) == Extent(items, itemWidth, gap)
    decreases |items|
  {
    if items == [] {
      SumZeros(columns);
    } else {
      var init := items[..|items| - 1];
      var prev := PlaceAll(init, columns, itemWidth, gap);
      SumOfHeights(init, columns, itemWidth, gap);
      var c := ShortestColumn(prev.heights);
      SumUpdate(prev.heights, c, prev.heights[c] + ItemHeight(itemWidth, items[|items| - 1]) + gap);
    }
  }

  /**
   With a non-negative width and gap, every accumulator is non-negative and every
   placement has top >= 0 and top + height <= the largest accumulator: totalHeight
   covers every photo.
   */
  lemma {:induction false} TotalHeightCoversPlacements(items: seq<Photo>, columns: nat, itemWidth: real, gap: real)
    requires columns >= 1 && AllWellFormed(items)
    requires itemWidth >= 0.0 && gap >= 0.0
    ensures var s := PlaceAll(items, columns, itemWidth, gap);
            && (forall j :: 0 <= j < columns ==> s.heights[j] >= 0.0)
            && forall k :: 0 <= k < |s.placed| ==>
                 0.0 <= s.placed[k].top && s.placed[k].top + s.placed[k].height <= MaxOf(s.heights)
    decreases |items|
  {
    if items != [] {
      var init := items[..|items| - 1];
      TotalHeightCoversPlacements(init, columns, itemWidth, gap);
      TotalHeightStep(init, items[|items| - 1], columns, itemWidth, gap);
      assert init + [items[|items| - 1]] == items;
    }
  }

  /** The inductive step of TotalHeightCoversPlacements: one more photo keeps both facts. */
  lemma TotalHeightStep(items: seq<Photo>, x: Photo, columns: nat, itemWidth: real, gap: real)
    requires columns >= 1 && AllWellFormed(items) && WellFormed(x)
    requires itemWidth >= 0.0 && gap >= 0.0
    requires var s := PlaceAll(items, columns, itemWidth, gap);
             && (forall j :: 0 <= j < columns ==> s.heights[j] >= 0.0)
             && forall k :: 0 <= k < |s.placed| ==>
                  0.0 <= s.placed[k].top && s.placed[k].top + s.placed[k].height <= MaxOf(s.heights)
    ensures AllWellFormed(items + [x])
    ensures var s := PlaceAll(items + [x], columns, itemWidth, gap);
            && (forall j :: 0 <= j < columns ==> s.heights[j] >= 0.0)
            && forall k :: 0 <= k < |s.placed| ==>
                 0.0 <= s.placed[k].top && s.placed[k].top + s.placed[k].height <= MaxOf(s.heights)
  {
    PlaceAllSnoc(items, x, columns, itemWidth, gap);
    var prev := PlaceAll(items, columns, itemWidth, gap);
    var s := PlaceAll(items + [x], columns, itemWidth, gap);
    assert s.heights == Grow(prev.heights, x, itemWidth, gap);
    assert s.placed == prev.placed + [Place(prev.heights, x, itemWidth, gap)];
    PlaceOnAccumulators(prev.heights, x, itemWidth, gap);
    forall k | 0 <= k < |s.placed|
      ensures 0.0 <= s.placed[k].top && s.placed[k].top + s.placed[k].height <= MaxOf(s.heights)
    {
      if k < |prev.placed| {
        assert s.placed[k] == prev.placed[k];
      } else {
        assert s.placed[k] == Place(prev.heights, x, itemWidth, gap);
      }
    }
  }

  /**
   One step on bare accumulators: with non-negative accumulators, width and gap,
   the raised accumulators stay non-negative, the maximum does not drop, and the
   new placement starts at or after 0 and ends within the new maximum.
   */
  lemma PlaceOnAccumulators(h: seq<real>, x: Photo, itemWidth: real, gap: real)
    requires |h| > 0 && WellFormed(x) && itemWidth >= 0.0 && gap >= 0.0
    requires forall j :: 0 <= j < |h| ==> h[j] >= 0.0
    ensures var g := Grow(h, x, itemWidth, gap);
            var p := Place(h, x, itemWidth, gap);
            && (forall j :: 0 <= j < |g| ==> g[j] >= 0.0)
            && MaxOf(h) <= MaxOf(g)
            && 0.0 <= p.top && p.top + p.height <= MaxOf(g)
  {
    var c := ShortestColumn(h);
    var hx := ItemHeight(itemWidth, x);
    var g := h[c := h[c] + hx + gap];
    assert Grow(h, x, itemWidth, gap) == g;
    assert hx >= 0.0;
    MaxGrows(h, c, h[c] + hx + gap);
    assert g[c] <= MaxOf(g);
  }

  /** Raising one element never lowers the maximum. */
  lemma MaxGrows(h: seq<real>, c: nat, v: real)
    requires c < |h| && h[c] <= v
    ensures MaxOf(h) <= MaxOf(h[c := v])
  {
    var m := MaxOf(h);
    var i :| 0 <= i < |h| && h[i] == m;
    assert h[c := v][i] >= m;
  }

  /**
   Photos that all get the same display height keep the columns balanced: after
   the pass no two accumulators differ by more than that height plus the gap.
   */
  lemma {:induction false} UniformHeightsStayBalanced(items: seq<Photo>, columns: nat, itemWidth: real, gap: real, h: real)
    requires columns >= 1 && AllWellFormed(items)
    requires forall k :: 0 <= k < |items| ==> ItemHeight(itemWidth, items[k]) == h
    requires h + gap >= 0.0
    ensures Balanced(PlaceAll(items, columns, itemWidth, gap).heights, h + gap)
    decreases |items|
  {
    if items != [] {
      var init := items[..|items| - 1];
      var x := items[|items| - 1];
      assert forall k :: 0 <= k < |init| ==> init[k] == items[k];
      UniformHeightsStayBalanced(init, columns, itemWidth, gap, h);
      var prev := PlaceAll(init, columns, itemWidth, gap).heights;
      assert init + [x] == items;
      BalancedStep(prev, x, itemWidth, gap, h);
      PlaceAllSnoc(init, x, columns, itemWidth, gap);
    }
  }

  /** No two accumulators differ by more than d. */
  predicate Balanced(hs: seq<real>, d: real)
  {
    forall i, j :: 0 <= i < |hs| && 0 <= j < |hs| ==> hs[i] - hs[j] <= d
  }

  /** The inductive step of UniformHeightsStayBalanced, on the accumulators alone. */
  lemma BalancedStep(prev: seq<real>, x: Photo, itemWidth: real, gap: real, h: real)
    requires |prev| > 0 && WellFormed(x) && ItemHeight(itemWidth, x) == h
    requires Balanced(prev, h + gap)
    ensures Balanced(Grow(prev, x, itemWidth, gap), h + gap)
  {
    var c := ShortestColumn(prev);
    var hs := Grow(prev, x, itemWidth, gap);
    assert hs == prev[c := prev[c] + h + gap];
    forall i, j | 0 <= i < |hs| && 0 <= j < |hs|
      ensures hs[i] - hs[j] <= h + gap
    {
      assert prev[c] <= prev[i] && prev[c] <= prev[j];
    }
  }

  // ---------------------------------------------------------------------------
  // Properties of the viewport filter
  // ---------------------------------------------------------------------------

  /** Keeping the visible placements of a concatenation keeps those of each part, in order. */
  lemma {:induction false} VisibleOfAppend(a: seq<Placement>, b: seq<Placement>, scrollTop: real, containerHeight: real)
    ensures VisibleOf(a + b, scrollTop, containerHeight)
         == VisibleOf(a, scrollTop, containerHeight) + VisibleOf(b, scrollTop, containerHeight)
    decreases |b|
  {
    if b == [] {
      assert a + b == a;
    } else {
      var b' := b[..|b| - 1];
      assert (a + b)[..|a + b| - 1] == a + b';
      assert (a + b)[|a + b| - 1] == b[|b| - 1];
      VisibleOfAppend(a, b', scrollTop, containerHeight);
    }
  }

  /** A placement is kept exactly when it is one of the input's and its span meets the window. */
  lemma {:induction false} VisibleOfMembers(ps: seq<Placement>, scrollTop: real, containerHeight: real)
    ensures forall p :: (p in VisibleOf(ps, scrollTop, containerHeight))
                       <==> (p in ps && IsVisible(p, scrollTop, containerHeight))
    decreases |ps|
  {
    if ps != [] {
      var init := ps[..|ps| - 1];
      VisibleOfMembers(init, scrollTop, containerHeight);
      assert ps == init + [ps[|ps| - 1]];
    }
  }

  /** A window that contains another keeps every placement the smaller one kept. */
  lemma {:induction false} WiderWindowKeepsVisible(ps: seq<Placement>, scrollTop: real, containerHeight: real,
                                                   scrollTop': real, containerHeight': real)
    requires scrollTop' <= scrollTop && scrollTop + containerHeight <= scrollTop' + containerHeight'
    ensures forall p :: p in VisibleOf(ps, scrollTop, containerHeight) ==> p in VisibleOf(ps, scrollTop', containerHeight')
  {
    VisibleOfMembers(ps, scrollTop, containerHeight);
    VisibleOfMembers(ps, scrollTop', containerHeight');
  }

  // ---------------------------------------------------------------------------
  // Worked examples
  // ---------------------------------------------------------------------------

  /** One 1000 x 500 photo in one column at width 300, gap 20: 300 x 150 at the origin, accumulator 170. */
  lemma SinglePhotoExample()
    ensures var s := PlaceAll([Photo(1, 1000.0, 500.0)], 1, 300.0, 20.0);
            s.placed == [Placement(Photo(1, 1000.0, 500.0), 0.0, 0.0, 300.0, 150.0)]
            && s.heights == [170.0] && MaxOf(s.heights) == 170.0
  {
    var x := Photo(1, 1000.0, 500.0);
    assert [x][..0] == [];
    assert ItemHeight(300.0, x) == 150.0;
    assert ShortestColumn([0.0]) == 0;
  }

  /** Three squares in two columns: the tie at the start goes to column 0, the third photo back to column 0 at 300 + gap. */
  lemma ThreeSquaresExample()
    ensures var sq := Photo(0, 300.0, 300.0);
            var s := PlaceAll([sq, sq, sq], 2, 300.0, 20.0);
            s.placed == [Placement(sq, 0.0, 0.0, 300.0, 300.0),
                         Placement(sq, 0.0, 320.0, 300.0, 300.0),
                         Placement(sq, 320.0, 0.0, 300.0, 300.0)]
            && s.heights == [640.0, 320.0]
  {
    var sq := Photo(0, 300.0, 300.0);
    TwoSquaresPass();
    assert [sq, sq, sq][..2] == [sq, sq];
    assert ItemHeight(300.0, sq) == 300.0;
    assert ShortestColumn([320.0, 320.0]) == 0;
  }

  /** The first two squares of ThreeSquaresExample: column 0, then column 1. */
  lemma TwoSquaresPass()
    ensures var sq := Photo(0, 300.0, 300.0);
            PlaceAll([sq, sq], 2, 300.0, 20.0)
              == Pass([320.0, 320.0], [Placement(sq, 0.0, 0.0, 300.0, 300.0), Placement(sq, 0.0, 320.0, 300.0, 300.0)])
  {
    var sq := Photo(0, 300.0, 300.0);
    OneSquarePass();
    assert [sq, sq][..1] == [sq];
    assert ItemHeight(300.0, sq) == 300.0;
    assert ShortestColumn([320.0, 0.0]) == 1;
  }

  /** The first square of ThreeSquaresExample: the tie between two empty columns goes to column 0. */
  lemma OneSquarePass()
    ensures var sq := Photo(0, 300.0, 300.0);
            PlaceAll([sq], 2, 300.0, 20.0) == Pass([320.0, 0.0], [Placement(sq, 0.0, 0.0, 300.0, 300.0)])
  {
    var sq := Photo(0, 300.0, 300.0);
    assert [sq][..0] == [];
    assert ItemHeight(300.0, sq) == 300.0;
    assert Zeros(2) == [0.0, 0.0];
    assert ShortestColumn([0.0, 0.0]) == 0;
  }

  /**
   The grid's rendering fixture: a 1000 x 1000 container at width 300, gap 20 has three
   columns, and both photos (1000 x 800 and 1200 x 900) are visible, in input order.
   */
  lemma GridFixtureExample()
    ensures ColumnCount(1000.0, 300.0, 20.0) == 3
    ensures var a, b := Photo(1, 1000.0, 800.0), Photo(2, 1200.0, 900.0);
            LayoutOf([a, b], 3, 300.0, 20.0, 0.0, 1000.0).visible
              == [Placement(a, 0.0, 0.0, 300.0, 240.0), Placement(b, 0.0, 320.0, 300.0, 225.0)]
  {
    assert (1020.0 / 320.0).Floor == 3;
    var a, b := Photo(1, 1000.0, 800.0), Photo(2, 1200.0, 900.0);
    var pa, pb := Placement(a, 0.0, 0.0, 300.0, 240.0), Placement(b, 0.0, 320.0, 300.0, 225.0);
    assert ItemHeight(300.0, a) == 240.0;
    assert ItemHeight(300.0, b) == 225.0;
    assert [a, b][..1] == [a];
    assert [a][..0] == [];
    assert Zeros(3) == [0.0, 0.0, 0.0];
    assert ShortestColumn([0.0, 0.0, 0.0]) == 0;
    assert PlaceAll([a], 3, 300.0, 20.0) == Pass([260.0, 0.0, 0.0], [pa]);
    assert ShortestColumn([260.0, 0.0, 0.0]) == 1;
    assert PlaceAll([a, b], 3, 300.0, 20.0).placed == [pa, pb];
    assert [pa, pb][..1] == [pa];
    assert [pa][..0] == [];
    assert VisibleOf([pa], 0.0, 1000.0) == [pa];
  }

  /** The fixture's accumulators: the first photo raises column 0 to 260, the second column 1 to 245. */
  lemma GridFixtureHeights()
    ensures var a, b := Photo(1, 1000.0, 800.0), Photo(2, 1200.0, 900.0);
            PlaceAll([a, b], 3, 300.0, 20.0).heights == [260.0, 245.0, 0.0]
  {
    var a, b := Photo(1, 1000.0, 800.0), Photo(2, 1200.0, 900.0);
    assert ItemHeight(300.0, a) == 240.0;
    assert ItemHeight(300.0, b) == 225.0;
    assert PlaceAll([a], 3, 300.0, 20.0).heights == [260.0, 0.0, 0.0] by {
      assert [a][..0] == [];
      assert Zeros(3) == [0.0, 0.0, 0.0];
      assert ShortestColumn([0.0, 0.0, 0.0]) == 0;
    }
    assert [a, b][..1] == [a];
    assert ShortestColumn([260.0, 0.0, 0.0]) == 1;
  }
}
