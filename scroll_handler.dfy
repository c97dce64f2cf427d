/**
 The scroll threshold and debounce gate of useScrollHandler. Each debounced
 reading (scrollY, winHeight) is compared against the last position handed to
 onScroll; a reading that moved less than the threshold on both axes is dropped,
 any other cancels the pending delivery and schedules a new one. Time is
 abstract: the timer going off is the Fire event, and unmounting is Teardown.
 The onScroll calls made so far are recorded, in order, in `delivered`.
 */
module ScrollHandler {

  datatype Option<T> = None | Some(value: T)

  datatype ScrollPosition = ScrollPosition(scrollY: real, winHeight: real)

  /** The threshold used when the caller gives none, in pixels. */
  const DefaultThreshold: real := 5.0

  function Abs(x: real): (r: real)
    ensures r >= 0.0 && (r == x || r == -x)
  {
    if x < 0.0 then -x else x
  }

  /** A reading that moved less than the threshold on both axes since the last delivery. */
  predicate IsNegligible(last: ScrollPosition, reading: ScrollPosition, threshold: real)
    // a threshold of zero or less lets every reading through ...
    ensures IsNegligible(last, reading, threshold) ==> threshold > 0.0
    // ... and a positive one drops a reading of the very same position
    ensures reading == last ==> (IsNegligible(last, reading, threshold) <==> threshold > 0.0)
  {
    Abs(reading.scrollY - last.scrollY) < threshold
    && Abs(reading.winHeight - last.winHeight) < threshold
  }

  /** The comparison is strict: moving by exactly the threshold on either axis is a real change. */
  lemma ThresholdDeltaQualifies(last: ScrollPosition, reading: ScrollPosition, threshold: real)
    requires Abs(reading.scrollY - last.scrollY) == threshold || Abs(reading.winHeight - last.winHeight) == threshold
    ensures !IsNegligible(last, reading, threshold)
  {
  }

  class ScrollGate {
    const threshold: real
    var lastProcessed: ScrollPosition
    var pending: Option<ScrollPosition>
    var delivered: seq<ScrollPosition>
    var mounted: bool

    /** Nothing is pending once the view is gone. */
    ghost predicate Valid()
      reads this
    {
      !mounted ==> pending.None?
    }

    /** Mounting: last processed is (0, 0), no timer, no onScroll call yet. */
    constructor (threshold: real)
      ensures Valid()
      ensures this.threshold == threshold
      ensures lastProcessed == ScrollPosition(0.0, 0.0) && pending.None? && delivered == [] && mounted
    {
      this.threshold := threshold;
      lastProcessed := ScrollPosition(0.0, 0.0);
      pending := None;
      delivered := [];
      mounted := true;
    }

    /**
     A debounced reading. While mounted, a reading that is negligible against the
     last processed position changes nothing; any other replaces whatever was
     pending by exactly one delivery of this reading. The last processed position
     is not touched, so later readings are still compared against it until the
     timer fires. After teardown the listener is gone and readings change nothing.
     */
    method Reading(scrollY: real, winHeight: real) returns (scheduled: bool)
      requires Valid()
      modifies this
      ensures Valid()
      ensures scheduled == (mounted && !IsNegligible(lastProcessed, ScrollPosition(scrollY, winHeight), threshold))
      ensures pending == if scheduled then Some(ScrollPosition(scrollY, winHeight)) else old(pending)
      ensures lastProcessed == old(lastProcessed) && delivered == old(delivered) && mounted == old(mounted)
    {
      var reading := ScrollPosition(scrollY, winHeight);
      var scrollDiff := Abs(scrollY - lastProcessed.scrollY);
      var heightDiff := Abs(winHeight - lastProcessed.winHeight);
      if !mounted || (scrollDiff < threshold && heightDiff < threshold) {
        return false;
      }
      // the pending delivery is cancelled and this reading is scheduled in its place
      pending := Some(reading);
      scheduled := true;
    }

    /** The timer goes off: last processed becomes the scheduled reading and onScroll gets those same values. */
    method Fire()
      requires Valid() && pending.Some?
      modifies this
      ensures Valid()
      ensures lastProcessed == old(pending.value)
      ensures delivered == old(delivered) + [old(pending.value)]
      ensures pending.None? && mounted == old(mounted)
    {
      var reading := pending.value;
      pending := None;
      lastProcessed := reading;
      delivered := delivered + [reading];
    }

    /** Unmounting: the listener is removed and the pending delivery cancelled, so Fire can no longer happen. */
    method Teardown()
      modifies this
      ensures Valid()
      ensures !mounted && pending.None?
      ensures lastProcessed == old(lastProcessed) && delivered == old(delivered)
    {
      mounted := false;
      pending := None;
    }
  }

  /**
   Two small readings change nothing; a larger one schedules exactly one delivery,
   which delivers that reading once; after teardown nothing more is delivered.
   */
  method GateScenario()
  {
    var gate := new ScrollGate(DefaultThreshold);
    var s1 := gate.Reading(2.0, 3.0);
    var s2 := gate.Reading(4.0, 0.0);
    assert !s1 && !s2 && gate.pending.None? && gate.delivered == [];
    var s3 := gate.Reading(5.0, 0.0);
    var s4 := gate.Reading(40.0, 0.0);
    assert s3 && s4 && gate.pending == Some(ScrollPosition(40.0, 0.0));
    gate.Fire();
    assert gate.delivered == [ScrollPosition(40.0, 0.0)];
    assert gate.lastProcessed == ScrollPosition(40.0, 0.0);
    var s5 := gate.Reading(100.0, 0.0);
    assert s5;
    gate.Teardown();
    var s6 := gate.Reading(500.0, 0.0);
    assert !s6 && gate.pending.None? && gate.delivered == [ScrollPosition(40.0, 0.0)];
  }
}
