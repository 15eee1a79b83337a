/**
 The frame-pacing sampler of the FPS overlay: the part of `AppDelegate` that, once per
 display refresh, measures the time since the previous refresh, keeps the most recent
 durations in a bounded window, and reports the instantaneous FPS and the 1% low.

 The clock reading `CACurrentMediaTime()` is a parameter; the window, label, display link
 and system queries around it are not modelled.
 */
module FpsOverlay {
  import opened FrameStats

  /** `maxSamples`: the capacity of the window of inter-frame durations. */
  const MaxSamples: nat := 300

  /** The last `n` elements of `s` (all of `s` when it is shorter), in their original order. */
  function Recent(s: seq<real>, n: nat): (r: seq<real>)
    ensures |r| == if |s| < n then |s| else n
    ensures forall i :: 0 <= i < |r| ==> r[i] == s[|s| - |r| + i]
  {
    if |s| <= n then s else s[|s| - n..]
  }

  /**
   Appending to a sliding window: the recent suffix of a longer history is the previous window
   with the new sample at the end, minus its single oldest sample once the window is full.
   */
  lemma RecentSlides(s: seq<real>, x: real, n: nat)
    requires n > 0
    ensures |Recent(s, n)| < n ==> Recent(s + [x], n) == Recent(s, n) + [x]
    ensures |Recent(s, n)| == n ==> Recent(s + [x], n) == Recent(s, n)[1..] + [x]
  {
    var w, w' := Recent(s, n), Recent(s + [x], n);
    if |w| < n {
      assert w == s;
      assert w' == s + [x];
    } else {
      assert |w'| == n;
      forall i | 0 <= i < n
        ensures w'[i] == (w[1..] + [x])[i]
      {
        if i < n - 1 {
          assert w'[i] == (s + [x])[|s| + 1 - n + i] == s[|s| - n + i + 1];
        }
      }
    }
  }

  /**
   One step of the window: appending a positive duration `x` and dropping the oldest entry on
   overflow yields the recent suffix of the longer history, still positive and bounded.
   */
  lemma WindowStep(history: seq<real>, w: seq<real>, x: real, w': seq<real>)
    requires w == Recent(history, MaxSamples)
    requires forall i :: 0 <= i < |w| ==> w[i] > 0.0
    requires x > 0.0
    requires w' == if |w| + 1 > MaxSamples then (w + [x])[1..] else w + [x]
    ensures w' == Recent(history + [x], MaxSamples)
    ensures forall i :: 0 <= i < |w'| ==> w'[i] > 0.0
    ensures 0 < |w'| <= MaxSamples && w'[|w'| - 1] == x
    ensures |w| < MaxSamples ==> w' == w + [x]
    ensures |w| == MaxSamples ==> w' == w[1..] + [x]
  {
    RecentSlides(history, x, MaxSamples);
    if |w| == MaxSamples {
      assert (w + [x])[1..] == w[1..] + [x];
    }
  }

  /**
   The FPS-tracking state of `AppDelegate`: the clock reading of the previous refresh and the
   window of recent inter-frame durations.
   */
  class AppDelegate {
    var lastTime: real
    var frameTimes: seq<real>

    /** Every inter-frame duration measured since the sampler was created, oldest first. */
    ghost var Deltas: seq<real>

    /**
     The window holds the most recent (at most MaxSamples) durations in the order they were
     measured, each of them positive.
     */
    ghost predicate Valid()
      reads this
    {
      && frameTimes == Recent(Deltas, MaxSamples)
      && (forall i :: 0 <= i < |frameTimes| ==> frameTimes[i] > 0.0)
    }

    /** `var lastTime = CACurrentMediaTime()` and an empty `frameTimes`. */
    constructor (now: real)
      ensures Valid()
      ensures lastTime == now
      ensures frameTimes == [] && Deltas == []
    {
      lastTime := now;
      frameTimes := [];
      Deltas := [];
    }

    /**
     `frameUpdate`: one refresh at clock reading `now`. The duration since the previous
     refresh enters the window, the oldest one leaves it when it overflows, and the result
     is the truncated rate of that single duration together with the window's 1% low.
     */
    method FrameUpdate(now: real) returns (fps: int, low1: int)
      requires Valid()
      requires lastTime < now
      modifies this
      ensures Valid()
      ensures lastTime == now
      ensures Deltas == old(Deltas) + [now - old(lastTime)]
      ensures |frameTimes| <= MaxSamples
      ensures frameTimes[|frameTimes| - 1] == now - old(lastTime)
      ensures |old(frameTimes)| < MaxSamples ==> frameTimes == old(frameTimes) + [now - old(lastTime)]
      ensures |old(frameTimes)| == MaxSamples ==> frameTimes == old(frameTimes)[1..] + [now - old(lastTime)]
      ensures fps == Truncate(1.0 / frameTimes[|frameTimes| - 1])
      ensures LowDefined(frameTimes) && low1 == Calc1PercentLow(frameTimes)
    {
      var delta := now - lastTime;
      lastTime := now;

      ghost var previous := frameTimes;
      frameTimes := frameTimes + [delta];
      if |frameTimes| > MaxSamples {
        frameTimes := frameTimes[1..];
      }

      WindowStep(Deltas, previous, delta, frameTimes);
      Deltas := Deltas + [delta];

      fps := Truncate(1.0 / delta);
      var window := frameTimes;
      assert LowDefined(window) by {
        PositiveLowDefined(window);
      }
      low1 := Calc1PercentLow(window);
    }
  }

  /**
   A refresh 0.01667 s after the previous one, about 59.99 frames per second, reports an
   instantaneous FPS of 59: the rate is truncated, not rounded.
   */
  method SixtyHertzFrameReportsFiftyNine() returns (fps: int)
    ensures fps == 59
  {
    FpsTruncatesNotRounds();
    var app := new AppDelegate(0.0);
    var low1;
    fps, low1 := app.FrameUpdate(0.01667);
  }
}
