# fps-counter: the frame-pacing sampler

The FPS overlay is a macOS app whose `AppDelegate` is called once per display refresh.
Each call measures the time since the previous refresh, keeps the most recent 300 such
inter-frame durations in a first-in-first-out window, and shows two rates on a label:

- the instantaneous FPS, the truncated inverse of the newest duration;
- the "1% low", the truncated inverse of the mean of the longest 1% of the window's
  durations (at least one of them). While the window holds 20 samples or fewer, it is 0.

This project models that sampler in two modules.

- `FrameStats` (`frame_stats.dfy`) is the pure side of `calc1PercentLow`. It holds the
  descending sort of the window, the number of worst frames taken, the selection of those
  frames, the mean, and Swift's truncating `Int(_:)` conversion. Durations are exact reals.
- `FpsOverlay` (`fps_overlay.dfy`) is the stateful side. The class `AppDelegate` has the
  fields `lastTime` and `frameTimes` and the method `FrameUpdate`, which changes them in place.
  A ghost field `Deltas` records every duration measured so far. The invariant `Valid()` says
  that `frameTimes` is always the last (at most) 300 entries of `Deltas`, in order, and that
  each entry is positive.

The clock `CACurrentMediaTime()` is the parameter `now` of the constructor and of
`FrameUpdate`. `FrameUpdate` returns the pair `(fps, low1)` that the source passes to
`updateLabel`.

Three points where the code's behaviour is easy to misread:

- The instantaneous FPS is truncated, not rounded. A 0.01667 s frame reports 59, not 60
  (`FpsTruncatesNotRounds`, `SixtyHertzFrameReportsFiftyNine`).
- With 21 to 199 samples the 1% low is the *truncated* inverse of the longest duration,
  not that inverse itself (`LowOfSmallWindow`).
- The code appends the new duration first and then evicts the oldest one when the window
  overflows. The resulting window is the same as evicting first (`RecentSlides`, `FrameUpdate`).

## Model

| member | source | states |
|---|---|---|
| FrameStats.Truncate | fpsoverlay.swift:92 | `Int(x)` drops the fraction toward zero: for `x >= 0` the result is the greatest integer not above `x`, for `x < 0` the least integer not below it |
| FrameStats.FpsTruncatesNotRounds | fpsoverlay.swift:92 | a frame of 0.01667 s (about 59.99 per second) reports 59: the conversion truncates, it does not round |
| FpsOverlay.SixtyHertzFrameReportsFiftyNine | fpsoverlay.swift:82-92 | a `frameUpdate` 0.01667 s after the previous refresh reports an FPS of 59, not 60 |
| FrameStats.TruncateMonotone | fpsoverlay.swift:106 | truncation keeps the order of non-negative rates |
| FrameStats.Sum | fpsoverlay.swift:105 | `reduce(0, +)`: the left fold of `+` from 0 over the worst durations; its bounds are `SumBounds` |
| FrameStats.SumBounds | fpsoverlay.swift:105 | `reduce(0, +)` over durations that all lie in `lo..hi` lies in `n*lo .. n*hi` |
| FrameStats.Insert | fpsoverlay.swift:101 | inserting a duration into a descending sequence keeps it descending and adds exactly that duration to its multiset |
| FrameStats.SortDescending | fpsoverlay.swift:101 | `sorted(by: >)` returns a descending permutation of the window, of the same length |
| FrameStats.SortedUnique | fpsoverlay.swift:101 | two descending sequences with the same elements are equal, so the sorted copy does not depend on the sorting algorithm |
| FrameStats.HeadIsLongest | fpsoverlay.swift:101 | the first element of the sorted copy is the longest duration of the window |
| FrameStats.WorstCount | fpsoverlay.swift:102 | `max(1, Int(n * 0.01))` is at least 1 and at most `n` for a non-empty window, is 1 below 200 samples, and is `n` div 100 from 100 samples on |
| FrameStats.PairCount | fpsoverlay.swift:102 | windows of 200 to 299 samples take two worst frames |
| FrameStats.Worst | fpsoverlay.swift:103 | `sorted.prefix(count)` holds exactly `count` durations |
| FrameStats.WorstIsTopK | fpsoverlay.swift:101-103 | the selected durations are a sub-multiset of the window, and each of them is at least every duration not selected |
| FrameStats.WorstWithinWindow | fpsoverlay.swift:101-103 | every selected duration lies between the shortest and the longest duration of the window |
| FrameStats.Calc1PercentLow | fpsoverlay.swift:98-99 | with 20 samples or fewer the 1% low is the sentinel 0, whatever the durations |
| FrameStats.PositiveLowDefined | fpsoverlay.swift:105-106 | when every duration is positive the mean of the worst frames is positive, so `Int(1.0 / avg)` never divides by zero |
| FrameStats.WorstMeanWithin | fpsoverlay.swift:103-105 | the mean of the worst durations lies between the shortest and the longest duration of the window |
| FrameStats.LowBounds | fpsoverlay.swift:101-106 | with more than 20 positive durations, the 1% low is at least the truncated rate of the longest frame and at most that of the shortest frame |
| FrameStats.LowOfSmallWindow | fpsoverlay.swift:102-106 | with 21 to 199 samples, the 1% low equals the truncated inverse of the longest duration |
| FrameStats.WorstPairSum | fpsoverlay.swift:102-105 | with 200 to 299 samples, the worst frames are the two longest and their sum is the sum of those two |
| FrameStats.LowOfTwoWorst | fpsoverlay.swift:102-106 | with 200 to 299 samples, the 1% low is the truncation of `2 / (a + b)` for the two longest durations `a`, `b` |
| FrameStats.LowAtMostMeanRateOfTwoWorst | fpsoverlay.swift:101-106 | with 200 to 299 positive durations, the two longest durations `a`, `b` are positive and the 1% low is at most the truncated mean of their rates `(1/a + 1/b) / 2`, because durations are averaged before inverting |
| FrameStats.MeanDurationRateAtMostMeanRate | fpsoverlay.swift:105-106 | averaging two durations and then inverting gives at most the mean of their two rates, with equality exactly when the durations are equal |
| FrameStats.LowIgnoresOrder | fpsoverlay.swift:101-106 | two windows holding the same durations in any order have the same 1% low, and either both are computable or neither is |
| FpsOverlay.Recent | fpsoverlay.swift:87-90 | the last `n` entries of a history (all of it when shorter), in their original order |
| FpsOverlay.RecentSlides | fpsoverlay.swift:87-90 | adding one duration to the history appends it to the window; when the window was full, the single oldest entry is also dropped |
| FpsOverlay.WindowStep | fpsoverlay.swift:87-90 | appending a positive duration and dropping the oldest entry on overflow gives the recent suffix of the longer history; the window stays positive, holds at most 300 entries and ends with the new duration |
| FpsOverlay.AppDelegate.constructor | fpsoverlay.swift:13-14 | `lastTime` starts at the current clock reading and `frameTimes` starts empty |
| FpsOverlay.AppDelegate.FrameUpdate | fpsoverlay.swift:82-96 | keeps `Valid()`; sets `lastTime` to `now`; appends `now - lastTime` to the window and drops the oldest entry only when the window held 300; keeps at most 300 entries; returns the truncated inverse of the newest duration and the 1% low of the updated window |

## Left out

- The window, label, styling and global mouse monitor (fpsoverlay.swift:19-51): user interface, no logic to model.
- The `CVDisplayLink` driver, its output callbacks, the `Unmanaged` context pointer, the `DispatchQueue.main.async` hop and the start-once `displayLink == nil` guard (fpsoverlay.swift:55-80): foreign calls and thread marshalling. Every refresh is one `FrameUpdate` call, run one at a time.
- `CACurrentMediaTime()` (fpsoverlay.swift:13, 83): the clock reading is the parameter `now`.
- `cpuUsage`, `ramUsage`, `cpuModel` and `gpuModel` (fpsoverlay.swift:111-163): Mach, `sysctl` and IOKit queries with no algorithm.
- `updateLabel` (fpsoverlay.swift:167-177): string formatting and display. `FrameUpdate` returns the two numbers instead.
- IEEE-754 doubles: durations, their sum, the mean and the inverses are exact reals, so rounding of `now - lastTime`, `reduce(0, +)`, `/` and `1.0 / x` is not modelled.
- `Int(Double(n) * 0.01)` is modelled as `n` div 100. The double `0.01` is slightly above 1/100, and this matches the product's truncation for window sizes up to 300, the only ones the window reaches.
- Swift traps when `Int(_:)` receives an infinite value or one outside 64 bits. Only the infinite case is a precondition here: a zero duration in `FrameUpdate` and a zero sum of worst durations in `Calc1PercentLow`. Integers are unbounded, so the overflow trap for positive durations shorter than about 1.1e-19 s (rates above 2^63 - 1) is not modelled; such a call returns the large rate instead.
- FpsOverlay.AppDelegate.FrameUpdate: requires `lastTime < now`. The source does not check this. A zero duration would make `Int(1.0 / delta)` trap, and a non-positive one would enter the window.
- FrameStats.Calc1PercentLow: requires `LowDefined`, which says the guard returns 0 or the worst durations do not sum to zero. Otherwise the source's `Int(1.0 / avg)` traps. `PositiveLowDefined` shows that windows built by `FrameUpdate` always meet it.
- `calc1PercentLow` leaving `frameTimes` unchanged is not a separate statement. `Calc1PercentLow` is a function of the window, so it cannot change it, and evaluating it again on the same window gives the same result.
- `frameTimes` is a Swift `Array` that `append` and `removeFirst` mutate in place. Here it is a `seq` field that `FrameUpdate` reassigns, with the same contents after each step.
