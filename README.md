# Eb/N0 threshold search for M-PSK and M-QAM

This project models the threshold search of a satellite link-budget toolkit.
The search finds the Eb/N0, in dB, at which a modulation's bit-error-rate (BER)
equals a target BER, to within a relative tolerance. The two scripts
`ber_psk.py` and `ber_qam.py` each carry a copy of the same loop. It is a
bisection over the fixed bracket [0, 100] dB. Each pass evaluates the BER at
the midpoint `mb` and computes the relative error `delta = (target - B) / B`.
A BER of exactly zero gives the sentinel 1e6, and `delta` is capped at 1e6.
If `delta > 0` the right end `rb` moves to `mb`; otherwise the left end `lb`
moves there. The loop stops once `|delta| <= precision` and returns `mb`.

Files:

- `bisection.dfy`, module `Bisection`: the shared loop as the method `Search`
  over its locals `lb`, `rb`, `mb`, `delta` and `n`. The BER curve is a
  parameter `ber: real -> real`. The specification functions `Bisect`, `Probe` and
  `DeltaAfter` give the bracket, `mb` and `delta` after `k` passes. `Search`
  is proved to return `Probe` at its pass count, with its exit test and "no
  earlier exit" stated through `DeltaAfter`. The lemmas state what those
  values mean: bounds, width halving, which end moves and what that says of
  the BER there, the tolerance reached on exit, the inputs for which the
  loop can never stop, and that a larger target never yields a larger Eb/N0
  (`TargetMonotone`).
- `ber_psk.dfy`, module `BerPsk`: `search_ber_psk` and the checks of its
  command-line entry.
- `ber_qam.dfy`, module `BerQam`: the same for `search_ber_qam`.

The BER formulas are given as a parameter `ber: (int, real) -> real`, from
constellation size and Eb/N0 in dB to BER. `Bisection.Curve(ber, M)` fixes the
constellation size. Where a property needs the curve to be non-negative (at every Eb/N0, not
only on [0, 100]) or non-increasing on [0, 100], that is a `requires`
(`NonNegative`, `NonIncreasing`).

Three facts about the Python code shape the model:

- The loop has no bound on its number of passes. `NeverConvergesLow` and
  `NeverConvergesHigh` give targets for which no pass ever meets the
  tolerance, so the loop would run forever. The model therefore takes an
  explicit `maxPasses`. It returns `converged` (the Python exit test) and
  `passes` (the Python counter `n`).
- The search itself accepts any precision: with `precision >= 1` it returns
  50 without evaluating the BER. Only the command-line entries assert
  `precision < 1`.
- A positive `delta` (BER below the target) lowers `rb`, and anything else,
  including a `delta` of exactly zero, raises `lb`. `BisectEnds` proves the
  consequences.

## Model

| member | source | states |
|---|---|---|
| `Bisection.Search` | ber_psk.py:13-32 | The loop, modelled the same way for ber_qam.py:14-34. The result `mb` is `Probe` after `passes` passes and lies in [0, 100]. After at least one pass it is an end of the final bracket. `converged` is exactly the exit test `abs(delta) <= precision`. The test failed before every earlier pass. Without convergence the pass bound was reached. With `precision >= 1` no pass runs and 50 is returned. With `precision < 1` and a pass bound of at least 1, at least one pass runs. |
| `Bisection.Delta` | ber_psk.py:24-25 | The relative error never exceeds the cap 1e6. It is the sentinel 1e6 when the BER is zero. |
| `Bisection.DeltaSign` | ber_psk.py:24-31 | For target > 0 and BER >= 0, `delta > 0` holds exactly when BER < target. That is the condition under which `rb` moves. |
| `Bisection.DeltaWithinTolerance` | ber_psk.py:20-25 | For target > 0 and precision < 1, the exit test holds exactly when the BER is positive and `abs(target - B) <= precision * B`. So the zero-BER sentinel can never satisfy it. |
| `Bisection.Mid` | ber_psk.py:22 | The midpoint is equidistant from both ends, and strictly inside a non-empty bracket. |
| `Bisection.NextBracket` | ber_psk.py:22-31 | One pass keeps one end unchanged. It halves the width and stays nested inside the previous bracket. |
| `Bisection.Bisect` | ber_psk.py:14-31 | The bracket starts at [0, 100]. After every pass `0 <= lb < rb <= 100`. |
| `Bisection.Probe` | ber_psk.py:16-22 | `mb` is 50 before the loop and then the last midpoint. It always lies in [0, 100]. |
| `Bisection.DeltaAfter` | ber_psk.py:17-25 | `delta` is 1 before the first pass, so the loop always runs once when precision < 1. It never exceeds the cap 1e6. After `k` passes it is the capped relative error of the BER at `Probe` after `k` passes. |
| `Bisection.BisectWidth` | ber_psk.py:22-31 | After `k` passes `rb - lb == 100 / 2^k`. |
| `Bisection.ProbeIsEndpoint` | ber_psk.py:28-32 | After a pass the returned `mb` is one end of the bracket. It is the right end exactly when that pass's `delta` was positive. |
| `Bisection.BisectEnds` | ber_psk.py:24-31 | On a non-negative curve (BER >= 0 at every Eb/N0), with target > 0: once `rb` has left 100, the BER there is below the target. Once `lb` has left 0, the BER there is at least the target. |
| `Bisection.BisectBracketsCrossing` | ber_psk.py:28-31 | On a non-negative curve that is non-increasing on [0, 100], with target > 0: every point of [0, 100] left of a moved `lb` has BER >= target, and every point of [0, 100] right of a moved `rb` has BER < target. |
| `Bisection.PinnedLow` | ber_psk.py:20-31 | On a non-negative curve (BER >= 0 at every Eb/N0) that is non-increasing on [0, 100], with the BER at 0 dB below the target, `lb` stays at 0 forever. |
| `Bisection.PinnedHigh` | ber_psk.py:20-31 | On a non-increasing curve, with target > 0 and the BER at 100 dB still at least the target, `rb` stays at 100 forever. |
| `Bisection.NeverConvergesLow` | ber_psk.py:20-25 | On a non-increasing curve, with target > 0, precision < 1 and `BER(0) * (1 + precision) < target`, no pass meets the exit test, and the Python loop never stops. |
| `Bisection.NeverConvergesHigh` | ber_psk.py:20-25 | On a non-increasing curve, with target > 0, precision < 1 and `BER(100) * (1 - precision) > target`, no pass meets the exit test, and the Python loop never stops. |
| `Bisection.ConvergedWithinTolerance` | ber_psk.py:17-25 | Suppose the exit test holds after `k` passes, with target > 0 and precision < 1. Then `k >= 1`, the BER at `mb` is positive, and it is within `precision` of the target relative to itself. |
| `Bisection.MissesBelowAt` | ber_psk.py:20-25 | On a non-increasing curve, with target > 0, precision < 1 and `BER(0) * (1 + precision) < target`, no Eb/N0 in [0, 100] meets the exit test. |
| `Bisection.MissesAboveAt` | ber_psk.py:20-25 | On a non-increasing curve, with target > 0, precision < 1 and `BER(100) * (1 - precision) > target`, no Eb/N0 in [0, 100] meets the exit test. |
| `Bisection.DeltaOrder` | ber_psk.py:24-28 | For targets 0 < t1 < t2 and one BER value, a positive `delta` for t1 is positive for t2 too. So where the smaller target lowers `rb`, so does the larger. |
| `Bisection.ConvergenceOrder` | ber_psk.py:20-28 | For targets 0 < t1 < t2, precision < 1 and one BER value: if t1 meets the tolerance and t2's `delta` is not positive, t2 meets it too. If t2 meets it and t1's `delta` is positive, t1 meets it too. |
| `Bisection.BisectNested` | ber_psk.py:28-31 | Between passes `j <= k`, `lb` never decreases and `rb` never increases. |
| `Bisection.TargetSeparation` | ber_psk.py:22-31 | For targets `0 < t1 < t2` on the same curve, after every pass the two brackets are either equal or the larger target's lies wholly at or left of the smaller target's. |
| `Bisection.SharedStopLowersRight` | ber_psk.py:20-29 | For targets 0 < t1 < t2 and precision < 1, two searches that share a bracket evaluate the same midpoint. If t1 stops there and t2 does not, t2's `rb` becomes that midpoint. |
| `Bisection.SharedStopRaisesLeft` | ber_psk.py:20-31 | For targets 0 < t1 < t2 and precision < 1, two searches that share a bracket evaluate the same midpoint. If t2 stops there and t1 does not, t1's `lb` becomes that midpoint. |
| `Bisection.ProbeInside` | ber_psk.py:22 | The midpoint of a pass lies strictly inside the bracket it halves. |
| `Bisection.RightOfProbe` | ber_psk.py:22-31 | Every midpoint after pass `j` lies strictly left of `rb` as it stood after pass `j`. |
| `Bisection.LeftOfProbe` | ber_psk.py:22-31 | Every midpoint after pass `j` lies strictly right of `lb` as it stood after pass `j`. |
| `Bisection.SeparatedOrder` | ber_psk.py:22-31 | Once the larger target's bracket lies at or left of the smaller target's, every later midpoint of the larger target is strictly left of every later midpoint of the smaller target. |
| `Bisection.MonotoneSmallerStopsFirst` | ber_psk.py:20-32 | For targets 0 < t1 < t2 and precision < 1: if t1's exit test holds at pass `k1 >= 1` and t2's does not, t2's midpoint at any later pass is at most t1's midpoint at `k1`. |
| `Bisection.MonotoneLargerStopsFirst` | ber_psk.py:20-32 | For targets 0 < t1 < t2 and precision < 1: if t2's exit test holds at pass `k2 >= 1` and t1's does not, t1's midpoint at any later pass is at least t2's midpoint at `k2`. |
| `Bisection.MonotoneSamePass` | ber_psk.py:22-32 | For targets 0 < t1 < t2, after the same number `k >= 1` of passes, t2's midpoint is at most t1's. |
| `Bisection.TargetMonotone` | ber_psk.py:20-32 | For any curve, targets `0 < t1 < t2` and precision < 1: when each search stops at the first pass whose exit test holds, the Eb/N0 returned for the larger target is at most that returned for the smaller one. A less demanding BER target never needs a larger Eb/N0. |
| `BerPsk.SearchBerPsk` | ber_psk.py:13-32 | `search_ber_psk` on the curve of one constellation size: the loop's result, exit test and "no earlier exit". On convergence with target > 0 and precision < 1, `abs(target - BER(M, mb)) <= precision * BER(M, mb)` with a positive BER. |
| `BerPsk.RequiredEbNo` | ber_psk.py:47-51 | Under the asserted `M > 1` and `target > 0`, `gamma` is the search on `BER(M, .)` with the bound default precision 0.005: it is `Probe` after `passes` passes and lies in [0, 100]. `converged` is exactly the exit test with 0.005 after `passes` passes, and the test failed after every earlier pass. Without convergence the pass bound was reached. With a positive bound at least one pass runs. On convergence the BER at `gamma` is positive and within 0.5 % of the target relative to itself. |
| `BerQam.SearchBerQam` | ber_qam.py:14-34 | The same as `SearchBerPsk`, for `search_ber_qam`. |
| `BerQam.RequiredEbNo` | ber_qam.py:49-53 | The same as `BerPsk.RequiredEbNo`, for the QAM entry. |

## Left out

- The BER formulas (ber_psk.py:7-11, ber_qam.py:7-12) use `erfc`, `sqrt`, `sin`, `log2` and `10^(x/10)` on floats. They are the abstract parameter `ber`. Their non-negativity and monotonicity are assumed where needed, not proved.
- Floating-point arithmetic. The model computes over exact reals, so it captures neither rounding in `(target - B) / B` and in the midpoint `lb + (rb - lb)/2`, nor the overflow that the 1e6 cap guards against. In doubles the bracket stops shrinking once its width reaches the spacing of doubles near its ends, and then `mb` lands on an end and repeats. How many passes that takes depends on where the bracket sits: about 50 for a bracket away from 0 dB, but over a thousand when `lb` stays at 0 (the `PinnedLow` case), because `rb` halves on through the subnormal doubles. From then on neither `BisectWidth`'s `100 / 2^k` nor `Bisect`'s strict `lb < rb` describes the Python loop; both hold only up to that point.
- The loop's lack of termination. The model stops after `maxPasses` passes and reports `converged == false`. The Python loop would go on.
- The command-line override of the precision (ber_psk.py:44-45, ber_qam.py:46-47). It rebinds the module variable after the default argument was already bound. So the search at ber_psk.py:51 and ber_qam.py:53 always runs with 0.005, and that is what `RequiredEbNo` models. The assert on the overridden value (ber_psk.py:47, ber_qam.py:49) is a check on the command line, not on the search, and is not modelled.
- The rest of the command-line entries (ber_psk.py:34-52, ber_qam.py:36-54): argument parsing, the computation `pow(base, power)`, the usage text and the printed result. Only their asserts are kept, as `requires` on `RequiredEbNo`, with the target passed in directly.
- The plotting and report scripts and the physical utilities (compare_ebno_downlink.py, maximum_rate_uplink.py, calc_cnr.py, rain.py, fsl_vs_phi_l.py, sky_temperature.py, rx_temperature.py). They are closed-form float formulas, table interpolation and plotting, and do not use the search beyond calling it.
