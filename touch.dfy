/**
 * Double-tap suppression on touch devices: a `touchend` that comes within
 * 300 ms of the previous one has its default action (zooming) prevented.
 */
module Touch {
  /** Two touch ends at most this many milliseconds apart form a double tap. */
  const DoubleTapWindow: int := 300

  /** Whether a touch end at `now` is prevented after one at `last`. */
  predicate IsDoubleTap(last: int, now: int) {
    now - last <= DoubleTapWindow
  }

  /** The handler's captured state: the time of the last touch end, 0 at first. */
  class DoubleTapGuard {
    var lastTouchEnd: int

    constructor ()
      ensures lastTouchEnd == 0
    {
      lastTouchEnd := 0;
    }

    /** One `touchend` at time `now` (milliseconds). */
    method TouchEnd(now: int) returns (prevented: bool)
      modifies this
      ensures prevented <==> now - old(lastTouchEnd) <= DoubleTapWindow
      ensures lastTouchEnd == now
    {
      prevented := IsDoubleTap(lastTouchEnd, now);
      lastTouchEnd := now;
    }
  }

  /** What a run of touch ends does, starting from a last touch end at `last`. */
  datatype TouchTrace = TouchTrace(prevented: seq<bool>, lastTouchEnd: int)

  /**
   * Feeding the touch end times `times` to the handler in order: each one is
   * prevented exactly when it comes within the window after its predecessor
   * (the first after `last`), and the last time is what remains.
   */
  function Replay(last: int, times: seq<int>): (r: TouchTrace)
    ensures |r.prevented| == |times|
    ensures r.lastTouchEnd == if times == [] then last else times[|times| - 1]
    ensures forall i :: 0 <= i < |times| ==>
      (r.prevented[i] <==> times[i] - (if i == 0 then last else times[i - 1]) <= DoubleTapWindow)
    decreases |times|
  {
    if times == [] then TouchTrace([], last)
    else
      var rest := Replay(times[0], times[1..]);
      TouchTrace([IsDoubleTap(last, times[0])] + rest.prevented, rest.lastTouchEnd)
  }

  /**
   * One more touch end extends the trace by exactly the step `TouchEnd`
   * takes from the trace's last time, so each event appended to a trace
   * agrees with what the guard's handler decides for it.
   */
  lemma {:induction false} ReplayStep(last: int, times: seq<int>, now: int)
    ensures var before := Replay(last, times);
      Replay(last, times + [now]) ==
        TouchTrace(before.prevented + [IsDoubleTap(before.lastTouchEnd, now)], now)
    decreases |times|
  {
    if times != [] {
      assert (times + [now])[1..] == times[1..] + [now];
      ReplayStep(times[0], times[1..], now);
    }
  }
}
