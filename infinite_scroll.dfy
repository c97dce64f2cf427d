/**
 The load-more trigger of useInfiniteScroll. On every scroll event the handler
 reads the scroll offset, the window height and the document height, and asks
 for the next page when no page is loading, more pages exist, and the bottom of
 the viewport is within `threshold` pixels of the bottom of the document.
 The browser readings are parameters, and the onLoadMore callback is modelled by
 the number of times it is called.
 */
module InfiniteScroll {

  /** The threshold used when the caller gives none, in pixels. */
  const DefaultThreshold: real := 200.0

  /** One reading of the window when a scroll event arrives. */
  datatype Viewport = Viewport(scrollY: real, windowHeight: real, documentHeight: real)

  /** How much of the document is still below the bottom of the viewport. */
  function Remaining(v: Viewport): (r: real)
    // the viewport's bottom edge plus what is left is the document's height
    ensures v.scrollY + v.windowHeight + r == v.documentHeight
  {
    v.documentHeight - (v.scrollY + v.windowHeight)
  }

  /**
   handleScroll: how many times one scroll event calls onLoadMore. Never while a
   page is loading or once there are no more pages; otherwise exactly once when
   what is left below the viewport is at most the threshold (the boundary counts).
   */
  function LoadMoreCalls(loading: bool, hasMore: bool, v: Viewport, threshold: real): (calls: nat)
    ensures calls <= 1
    ensures loading || !hasMore ==> calls == 0
    ensures !loading && hasMore ==> (calls == 1 <==> Remaining(v) <= threshold)
  {
    if loading || !hasMore then 0
    else if v.scrollY + v.windowHeight >= v.documentHeight - threshold then 1
    else 0
  }

  /** The handler for a hook created without a threshold. */
  function DefaultLoadMoreCalls(loading: bool, hasMore: bool, v: Viewport): (calls: nat)
    ensures calls <= 1 && (loading || !hasMore ==> calls == 0)
    ensures !loading && hasMore ==> (calls == 1 <==> Remaining(v) <= 200.0)
  {
    LoadMoreCalls(loading, hasMore, v, DefaultThreshold)
  }

  /** The source's comparison, rearranged: the viewport's bottom reaches the trigger line exactly when what is left is at most the threshold. */
  lemma NearBottomIsRemainingWithin(v: Viewport, threshold: real)
    ensures (v.scrollY + v.windowHeight >= v.documentHeight - threshold) <==> Remaining(v) <= threshold
  {
  }

  /** Scrolling further down, with the same window and document, never turns the trigger off. */
  lemma ScrollingDownKeepsTrigger(loading: bool, hasMore: bool, v: Viewport, w: Viewport, threshold: real)
    requires v.windowHeight == w.windowHeight && v.documentHeight == w.documentHeight
    requires v.scrollY <= w.scrollY
    ensures LoadMoreCalls(loading, hasMore, v, threshold) <= LoadMoreCalls(loading, hasMore, w, threshold)
  {
  }

  /** A larger threshold asks for the next page earlier: it fires whenever a smaller one does. */
  lemma LargerThresholdFiresEarlier(loading: bool, hasMore: bool, v: Viewport, t1: real, t2: real)
    requires t1 <= t2
    ensures LoadMoreCalls(loading, hasMore, v, t1) <= LoadMoreCalls(loading, hasMore, v, t2)
  {
  }

  /** With a threshold that is not negative, reaching the very bottom of the document always asks for more. */
  lemma BottomReachedFires(v: Viewport, threshold: real)
    requires threshold >= 0.0
    requires v.scrollY + v.windowHeight >= v.documentHeight
    ensures LoadMoreCalls(false, true, v, threshold) == 1
  {
  }

  /**
   A run of scroll events under fixed flags: the handler is not debounced, so
   every event near the bottom calls onLoadMore again until the parent flips
   `loading`.
   */
  function TotalCalls(loading: bool, hasMore: bool, events: seq<Viewport>, threshold: real): (n: nat)
    ensures n <= |events|
    ensures loading || !hasMore ==> n == 0
    decreases |events|
  {
    if events == [] then 0
    else TotalCalls(loading, hasMore, events[..|events| - 1], threshold)
         + LoadMoreCalls(loading, hasMore, events[|events| - 1], threshold)
  }

  /** Every event of the run that ends near the bottom is one call: the total is the number of such events. */
  lemma {:induction false} TotalCallsCountsNearBottom(hasMore: bool, events: seq<Viewport>, threshold: real)
    requires hasMore
    requires forall k :: 0 <= k < |events| ==> Remaining(events[k]) <= threshold
    ensures TotalCalls(false, hasMore, events, threshold) == |events|
    decreases |events|
  {
    if events != [] {
      var prefix := events[..|events| - 1];
      assert forall k :: 0 <= k < |prefix| ==> prefix[k] == events[k];
      TotalCallsCountsNearBottom(hasMore, prefix, threshold);
    }
  }

  /** A page of photos at the default threshold: 200 pixels from the bottom fires, 201 does not. */
  lemma DefaultThresholdExample()
    ensures DefaultLoadMoreCalls(false, true, Viewport(1000.0, 800.0, 2000.0)) == 1
    ensures DefaultLoadMoreCalls(false, true, Viewport(999.0, 800.0, 2000.0)) == 0
    ensures DefaultLoadMoreCalls(true, true, Viewport(1200.0, 800.0, 2000.0)) == 0
  {
  }
}
