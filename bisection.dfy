/**
  The threshold search shared by the PSK and QAM scripts: bisection over the
  Eb/N0 bracket [0, 100] dB for the point where a bit-error-rate curve meets a
  target, to within a relative tolerance.

  The BER curve is a parameter `ber: real -> real` (Eb/N0 in dB to BER). The
  search itself is the method `Search`; the functions `Bisect`, `Probe` and
  `DeltaAfter` say what its locals hold after k passes, and the lemmas below
  them state what those values mean.
*/
module Bisection {

  /** The bracket the search starts from, in dB. */
  const InitialLow: real := 0.0
  const InitialHigh: real := 100.0

  /** The relative error the loop starts with, before any BER is evaluated. */
  const InitialDelta: real := 1.0

  /** Relative error used when the BER at the midpoint is exactly zero; also the cap on it. */
  const Sentinel: real := 1000000.0

  /** The current bracket: `lb` and `rb` of the loop. */
  datatype Bracket = Bracket(lb: real, rb: real)

  function Abs(x: real): (r: real)
  {
    if x < 0.0 then -x else x
  }

  function Min(a: real, b: real): (r: real)
  {
    if b < a then b else a
  }

  function Pow2(n: nat): (r: nat)
    ensures r >= 1
  {
    if n == 0 then 1 else 2 * Pow2(n - 1)
  }

  /** The midpoint `lb + (rb - lb) / 2`. */
  function Mid(lb: real, rb: real): (m: real)
    ensures m - lb == rb - m
    ensures lb < rb ==> lb < m < rb
  {
    lb + (rb - lb) / 2.0
  }

  /**
    The relative error of a BER value `b` against `target`: the sentinel
    when `b` is zero, otherwise `(target - b) / b`, capped at the sentinel.
  */
  function Delta(target: real, b: real): (d: real)
    ensures d <= Sentinel
    ensures b == 0.0 ==> d == Sentinel
  {
    var raw := if b != 0.0 then (target - b) / b else Sentinel;
    Min(raw, Sentinel)
  }

  ghost predicate NonNegative(ber: real -> real)
  {
    forall g :: ber(g) >= 0.0
  }

  /** Higher Eb/N0 never gives a higher BER, over the initial bracket. */
  ghost predicate NonIncreasing(ber: real -> real)
  {
    forall x, y :: InitialLow <= x <= y <= InitialHigh ==> ber(y) <= ber(x)
  }

  /**
    The BER curve of one constellation size, as the search sees it: a BER
    formula maps a constellation size and an Eb/N0 in dB to a BER.
  */
  function Curve(ber: (int, real) -> real, constellationSize: int): (c: real -> real)
    ensures forall g :: c(g) == ber(constellationSize, g)
  {
    g => ber(constellationSize, g)
  }

  /** For a target above zero and a BER that is not negative, a positive delta means the BER is below the target. */
  lemma DeltaSign(target: real, b: real)
    requires target > 0.0 && b >= 0.0
    ensures Delta(target, b) > 0.0 <==> b < target
  {
    if b > 0.0 {
      var q := (target - b) / b;
      assert q * b == target - b;
      if q > 0.0 {
        PositiveProduct(q, b);
      } else {
        ScaleMonotone(q, 0.0, b);
      }
    }
  }

  /**
    The loop's exit test `|delta| <= precision`, for a positive target and a
    precision below 1, holds exactly when the BER is positive (the sentinel
    never passes) and within `precision` of the target relative to itself.
  */
  lemma DeltaWithinTolerance(target: real, b: real, precision: real)
    requires target > 0.0 && precision < 1.0
    ensures Abs(Delta(target, b)) <= precision <==> b > 0.0 && Abs(target - b) <= precision * b
  {
    if b > 0.0 {
      var q := (target - b) / b;
      assert q * b == target - b;
      if Abs(q) <= precision {
        assert Abs(q) * b <= precision * b;
        assert Abs(target - b) == Abs(q) * b;
      }
      if Abs(target - b) <= precision * b {
        assert Abs(q) * b == Abs(target - b);
        assert Abs(q) <= precision;
        assert Delta(target, b) == q;
      }
    } else if b < 0.0 {
      var q := (target - b) / b;
      assert q * b == target - b;
      assert q < -1.0;
    }
  }

  lemma PositiveProduct(a: real, b: real)
    requires a > 0.0 && b > 0.0
    ensures a * b > 0.0
  {
  }

  lemma ScaleMonotone(a: real, b: real, c: real)
    requires a <= b && c >= 0.0
    ensures a * c <= b * c
  {
    assert (b - a) * c >= 0.0;
  }

  /** A BER at or below `l`, where `l * (1 + precision)` is still below the target, misses the tolerance. */
  lemma MissesBelow(target: real, b: real, l: real, precision: real)
    requires target > 0.0 && precision < 1.0 && b <= l && l * (1.0 + precision) < target
    ensures Abs(Delta(target, b)) > precision
  {
    DeltaWithinTolerance(target, b, precision);
    if precision >= -1.0 {
      ScaleMonotone(b, l, 1.0 + precision);
      assert b * (1.0 + precision) == b + precision * b;
    }
    // With precision below -1 the claim holds because |delta| is never negative.
  }

  /** A BER at or above `h`, where `h * (1 - precision)` is still above the target, misses the tolerance. */
  lemma MissesAbove(target: real, b: real, h: real, precision: real)
    requires target > 0.0 && precision < 1.0 && h <= b && h * (1.0 - precision) > target
    ensures Abs(Delta(target, b)) > precision
  {
    DeltaWithinTolerance(target, b, precision);
    ScaleMonotone(h, b, 1.0 - precision);
    assert b * (1.0 - precision) == b - precision * b;
  }

  /** One pass of the loop: evaluate the BER at the midpoint, then move exactly one end onto it. */
  function NextBracket(ber: real -> real, target: real, br: Bracket): (r: Bracket)
    ensures r.lb == br.lb || r.rb == br.rb
    ensures br.lb < br.rb ==> br.lb <= r.lb < r.rb <= br.rb
    ensures r.rb - r.lb == (br.rb - br.lb) / 2.0
  {
    var m := Mid(br.lb, br.rb);
    if Delta(target, ber(m)) > 0.0 then Bracket(br.lb, m) else Bracket(m, br.rb)
  }

  /** The bracket after `k` passes. */
  function Bisect(ber: real -> real, target: real, k: nat): (r: Bracket)
    ensures InitialLow <= r.lb < r.rb <= InitialHigh
  {
    if k == 0 then Bracket(InitialLow, InitialHigh)
    else NextBracket(ber, target, Bisect(ber, target, k - 1))
  }

  /** The value of `mb` after `k` passes: 50 before the first, then the last midpoint evaluated. */
  function Probe(ber: real -> real, target: real, k: nat): (m: real)
    ensures InitialLow <= m <= InitialHigh
  {
    if k == 0 then Mid(InitialLow, InitialHigh)
    else
      var br := Bisect(ber, target, k - 1);
      Mid(br.lb, br.rb)
  }

  /** The value of `delta` after `k` passes. */
  function DeltaAfter(ber: real -> real, target: real, k: nat): (d: real)
    ensures d <= Sentinel
    ensures k == 0 ==> d == InitialDelta
  {
    if k == 0 then InitialDelta else Delta(target, ber(Probe(ber, target, k)))
  }

  /** Each pass halves the bracket: after `k` passes its width is 100 / 2^k. */
  lemma {:induction false} BisectWidth(ber: real -> real, target: real, k: nat)
    ensures Bisect(ber, target, k).rb - Bisect(ber, target, k).lb == (InitialHigh - InitialLow) / (Pow2(k) as real)
  {
    if k > 0 {
      BisectWidth(ber, target, k - 1);
      var p := Pow2(k - 1) as real;
      assert Pow2(k) as real == 2.0 * p;
      assert (InitialHigh - InitialLow) / p / 2.0 == (InitialHigh - InitialLow) / (2.0 * p);
    }
  }

  /** After a pass, `mb` is one end of the bracket: the end that was just moved. */
  lemma {:induction false} ProbeIsEndpoint(ber: real -> real, target: real, k: nat)
    requires k >= 1
    ensures Probe(ber, target, k) == Bisect(ber, target, k).lb || Probe(ber, target, k) == Bisect(ber, target, k).rb
    ensures Probe(ber, target, k) == Bisect(ber, target, k).rb <==> DeltaAfter(ber, target, k) > 0.0
  {
  }

  /**
    For a positive target and a BER that is never negative, the right end only
    ever moves onto points whose BER is below the target, and the left end only
    onto points whose BER reaches the target.
  */
  lemma {:induction false} BisectEnds(ber: real -> real, target: real, k: nat)
    requires target > 0.0 && NonNegative(ber)
    ensures Bisect(ber, target, k).rb < InitialHigh ==> ber(Bisect(ber, target, k).rb) < target
    ensures Bisect(ber, target, k).lb > InitialLow ==> ber(Bisect(ber, target, k).lb) >= target
  {
    if k > 0 {
      BisectEnds(ber, target, k - 1);
      var br := Bisect(ber, target, k - 1);
      var m := Mid(br.lb, br.rb);
      DeltaSign(target, ber(m));
    }
  }

  /**
    With a non-increasing BER curve, every point left of a moved left end has
    BER at least the target and every point right of a moved right end has BER
    below it: the crossing stays inside the bracket.
  */
  lemma {:induction false} BisectBracketsCrossing(ber: real -> real, target: real, k: nat, x: real)
    requires target > 0.0 && NonNegative(ber) && NonIncreasing(ber)
    ensures InitialLow < Bisect(ber, target, k).lb && InitialLow <= x <= Bisect(ber, target, k).lb ==> ber(x) >= target
    ensures Bisect(ber, target, k).rb < InitialHigh && Bisect(ber, target, k).rb <= x <= InitialHigh ==> ber(x) < target
  {
    BisectEnds(ber, target, k);
  }

  /** If the target lies above the BER at 0 dB, the left end never moves. */
  lemma {:induction false} PinnedLow(ber: real -> real, target: real, k: nat)
    requires NonNegative(ber) && NonIncreasing(ber) && target > ber(InitialLow)
    ensures Bisect(ber, target, k).lb == InitialLow
  {
    if k > 0 {
      PinnedLow(ber, target, k - 1);
      var br := Bisect(ber, target, k - 1);
      var m := Mid(br.lb, br.rb);
      DeltaSign(target, ber(m));
    }
  }

  /** If the BER at 100 dB still reaches the target, the right end never moves. */
  lemma {:induction false} PinnedHigh(ber: real -> real, target: real, k: nat)
    requires NonIncreasing(ber) && target > 0.0 && ber(InitialHigh) >= target
    ensures Bisect(ber, target, k).rb == InitialHigh
  {
    if k > 0 {
      PinnedHigh(ber, target, k - 1);
      var br := Bisect(ber, target, k - 1);
      var m := Mid(br.lb, br.rb);
      assert ber(m) >= target;
      DeltaSign(target, ber(m));
    }
  }

  /**
    If even the BER at 0 dB is too far below the target, no pass ever meets
    the tolerance: the Python loop would not stop.
  */
  lemma {:induction false} NeverConvergesLow(ber: real -> real, target: real, precision: real, k: nat)
    requires NonIncreasing(ber) && target > 0.0 && precision < 1.0
    requires ber(InitialLow) * (1.0 + precision) < target
    ensures Abs(DeltaAfter(ber, target, k)) > precision
  {
    if k > 0 {
      var m := Probe(ber, target, k);
      MissesBelowAt(ber, target, precision, m);
    }
  }

  /** The pointwise form of `NeverConvergesLow`: no Eb/N0 in the bracket meets the tolerance. */
  lemma MissesBelowAt(ber: real -> real, target: real, precision: real, x: real)
    requires NonIncreasing(ber) && target > 0.0 && precision < 1.0
    requires ber(InitialLow) * (1.0 + precision) < target
    requires InitialLow <= x <= InitialHigh
    ensures Abs(Delta(target, ber(x))) > precision
  {
    MissesBelow(target, ber(x), ber(InitialLow), precision);
  }

  /**
    If even the BER at 100 dB is too far above the target, no pass ever meets
    the tolerance: the Python loop would not stop.
  */
  lemma {:induction false} NeverConvergesHigh(ber: real -> real, target: real, precision: real, k: nat)
    requires NonIncreasing(ber) && target > 0.0 && precision < 1.0
    requires ber(InitialHigh) * (1.0 - precision) > target
    ensures Abs(DeltaAfter(ber, target, k)) > precision
  {
    if k > 0 {
      var m := Probe(ber, target, k);
      MissesAboveAt(ber, target, precision, m);
    }
  }

  /** The pointwise form of `NeverConvergesHigh`: no Eb/N0 in the bracket meets the tolerance. */
  lemma MissesAboveAt(ber: real -> real, target: real, precision: real, x: real)
    requires NonIncreasing(ber) && target > 0.0 && precision < 1.0
    requires ber(InitialHigh) * (1.0 - precision) > target
    requires InitialLow <= x <= InitialHigh
    ensures Abs(Delta(target, ber(x))) > precision
  {
    MissesAbove(target, ber(x), ber(InitialHigh), precision);
  }

  /**
    When the exit test holds after `k` passes and the precision is below 1,
    at least one pass has run and the BER at `mb` is positive and within
    `precision` of the target, relative to itself.
  */
  lemma {:induction false} ConvergedWithinTolerance(ber: real -> real, target: real, precision: real, k: nat)
    requires target > 0.0 && precision < 1.0
    requires Abs(DeltaAfter(ber, target, k)) <= precision
    ensures k >= 1
    ensures ber(Probe(ber, target, k)) > 0.0
    ensures Abs(target - ber(Probe(ber, target, k))) <= precision * ber(Probe(ber, target, k))
  {
    DeltaWithinTolerance(target, ber(Probe(ber, target, k)), precision);
  }

  /** A larger positive target never turns a positive delta into a non-positive one. */
  lemma DeltaOrder(t1: real, t2: real, b: real)
    requires 0.0 < t1 < t2
    requires Delta(t1, b) > 0.0
    ensures Delta(t2, b) > 0.0
  {
    if b > 0.0 {
      var q1 := (t1 - b) / b;
      var q2 := (t2 - b) / b;
      assert q1 * b == t1 - b;
      assert q2 * b == t2 - b;
      if q2 <= q1 {
        ScaleMonotone(q2, q1, b);
      }
    }
  }

  /**
    At one BER value, the two targets' exit tests are ordered: if the smaller
    target meets its tolerance and the larger one's delta is not positive, the
    larger one meets it too; if the larger target meets its tolerance and the
    smaller one's delta is positive, the smaller one meets it too.
  */
  lemma ConvergenceOrder(t1: real, t2: real, b: real, precision: real)
    requires 0.0 < t1 < t2 && precision < 1.0
    ensures Abs(Delta(t1, b)) <= precision && Delta(t2, b) <= 0.0 ==> Abs(Delta(t2, b)) <= precision
    ensures Abs(Delta(t2, b)) <= precision && Delta(t1, b) > 0.0 ==> Abs(Delta(t1, b)) <= precision
  {
    DeltaWithinTolerance(t1, b, precision);
    DeltaWithinTolerance(t2, b, precision);
    if b > 0.0 {
      DeltaSign(t1, b);
      DeltaSign(t2, b);
    }
  }

  /** The right end never moves up and the left end never moves down. */
  lemma {:induction false} BisectNested(ber: real -> real, target: real, j: nat, k: nat)
    requires j <= k
    ensures Bisect(ber, target, j).lb <= Bisect(ber, target, k).lb
    ensures Bisect(ber, target, k).rb <= Bisect(ber, target, j).rb
  {
    if j < k {
      BisectNested(ber, target, j, k - 1);
    }
  }

  /**
    Run with two positive targets `t1 < t2`, the two searches share their
    bracket until they first part, and from then on the larger target's
    bracket lies wholly at or left of the smaller target's.
  */
  lemma {:induction false} TargetSeparation(ber: real -> real, t1: real, t2: real, k: nat)
    requires 0.0 < t1 < t2
    ensures Bisect(ber, t1, k) == Bisect(ber, t2, k) || Bisect(ber, t2, k).rb <= Bisect(ber, t1, k).lb
  {
    if k > 0 {
      TargetSeparation(ber, t1, t2, k - 1);
      var b1 := Bisect(ber, t1, k - 1);
      var b2 := Bisect(ber, t2, k - 1);
      if b1 == b2 {
        var m := Mid(b1.lb, b1.rb);
        if Delta(t1, ber(m)) > 0.0 {
          DeltaOrder(t1, t2, ber(m));
        }
      }
    }
  }

  /**
    Two searches that share a bracket evaluate the same midpoint. If there the
    smaller target stops and the larger does not, the larger target lowers its
    right end onto that midpoint.
  */
  lemma {:induction false} SharedStopLowersRight(ber: real -> real, t1: real, t2: real, precision: real, j: nat)
    requires 0.0 < t1 < t2 && precision < 1.0
    requires Bisect(ber, t1, j) == Bisect(ber, t2, j)
    requires Abs(DeltaAfter(ber, t1, j + 1)) <= precision < Abs(DeltaAfter(ber, t2, j + 1))
    ensures Bisect(ber, t2, j + 1).rb == Probe(ber, t1, j + 1)
  {
    var br := Bisect(ber, t1, j);
    ConvergenceOrder(t1, t2, ber(Mid(br.lb, br.rb)), precision);
  }

  /**
    Two searches that share a bracket evaluate the same midpoint. If there the
    larger target stops and the smaller does not, the smaller target raises its
    left end onto that midpoint.
  */
  lemma {:induction false} SharedStopRaisesLeft(ber: real -> real, t1: real, t2: real, precision: real, j: nat)
    requires 0.0 < t1 < t2 && precision < 1.0
    requires Abs(DeltaAfter(ber, t2, j + 1)) <= precision < Abs(DeltaAfter(ber, t1, j + 1))
    requires Bisect(ber, t1, j) == Bisect(ber, t2, j)
    ensures Bisect(ber, t1, j + 1).lb == Probe(ber, t2, j + 1)
  {
    var br := Bisect(ber, t1, j);
    ConvergenceOrder(t1, t2, ber(Mid(br.lb, br.rb)), precision);
  }

  /** After at least one pass, `mb` lies strictly inside the bracket it was the midpoint of. */
  lemma {:induction false} ProbeInside(ber: real -> real, target: real, k: nat)
    requires k >= 1
    ensures Bisect(ber, target, k - 1).lb < Probe(ber, target, k) < Bisect(ber, target, k - 1).rb
  {
  }

  /** Every `mb` after pass `j` lies left of the right end the bracket had after pass `j`. */
  lemma {:induction false} RightOfProbe(ber: real -> real, target: real, j: nat, k: nat)
    requires j < k
    ensures Probe(ber, target, k) < Bisect(ber, target, j).rb
  {
    ProbeInside(ber, target, k);
    BisectNested(ber, target, j, k - 1);
  }

  /** Every `mb` after pass `j` lies right of the left end the bracket had after pass `j`. */
  lemma {:induction false} LeftOfProbe(ber: real -> real, target: real, j: nat, k: nat)
    requires j < k
    ensures Bisect(ber, target, j).lb < Probe(ber, target, k)
  {
    ProbeInside(ber, target, k);
    BisectNested(ber, target, j, k - 1);
  }

  /** Once the larger target's bracket lies left of the smaller target's, every later `mb` of it does too. */
  lemma {:induction false} SeparatedOrder(ber: real -> real, t1: real, t2: real, j: nat, k1: nat, k2: nat)
    requires j < k1 && j < k2
    requires Bisect(ber, t2, j).rb <= Bisect(ber, t1, j).lb
    ensures Probe(ber, t2, k2) < Probe(ber, t1, k1)
  {
    RightOfProbe(ber, t2, j, k2);
    LeftOfProbe(ber, t1, j, k1);
  }

  /** The smaller target stops first: the larger one then ends at or left of where it stopped. */
  lemma {:induction false} MonotoneSmallerStopsFirst(ber: real -> real, t1: real, t2: real, precision: real, k1: nat, k2: nat)
    requires 0.0 < t1 < t2 && precision < 1.0 && 1 <= k1 < k2
    requires Abs(DeltaAfter(ber, t1, k1)) <= precision < Abs(DeltaAfter(ber, t2, k1))
    ensures Probe(ber, t2, k2) <= Probe(ber, t1, k1)
  {
    TargetSeparation(ber, t1, t2, k1 - 1);
    if Bisect(ber, t1, k1 - 1) == Bisect(ber, t2, k1 - 1) {
      SharedStopLowersRight(ber, t1, t2, precision, k1 - 1);
      RightOfProbe(ber, t2, k1, k2);
    } else {
      SeparatedOrder(ber, t1, t2, k1 - 1, k1, k2);
    }
  }

  /** The larger target stops first: the smaller one then ends at or right of where it stopped. */
  lemma {:induction false} MonotoneLargerStopsFirst(ber: real -> real, t1: real, t2: real, precision: real, k1: nat, k2: nat)
    requires 0.0 < t1 < t2 && precision < 1.0 && 1 <= k2 < k1
    requires Abs(DeltaAfter(ber, t2, k2)) <= precision < Abs(DeltaAfter(ber, t1, k2))
    ensures Probe(ber, t2, k2) <= Probe(ber, t1, k1)
  {
    TargetSeparation(ber, t1, t2, k2 - 1);
    if Bisect(ber, t1, k2 - 1) == Bisect(ber, t2, k2 - 1) {
      SharedStopRaisesLeft(ber, t1, t2, precision, k2 - 1);
      LeftOfProbe(ber, t1, k2, k1);
    } else {
      SeparatedOrder(ber, t1, t2, k2 - 1, k1, k2);
    }
  }

  /** Both targets stop at the same pass: the larger one's midpoint is at or left of the smaller one's. */
  lemma {:induction false} MonotoneSamePass(ber: real -> real, t1: real, t2: real, k: nat)
    requires 0.0 < t1 < t2 && 1 <= k
    ensures Probe(ber, t2, k) <= Probe(ber, t1, k)
  {
    TargetSeparation(ber, t1, t2, k - 1);
    ProbeInside(ber, t1, k);
    ProbeInside(ber, t2, k);
  }

  /**
    A larger target never needs a larger Eb/N0: when both searches stop by
    their own exit test (after `k1` and `k2` passes, the first passes at which
    it holds), the result for the larger target is at most that for the
    smaller one.
  */
  lemma {:induction false} TargetMonotone(ber: real -> real, t1: real, t2: real, precision: real, k1: nat, k2: nat)
    requires 0.0 < t1 < t2 && precision < 1.0
    requires Abs(DeltaAfter(ber, t1, k1)) <= precision
    requires forall k :: 0 <= k < k1 ==> Abs(DeltaAfter(ber, t1, k)) > precision
    requires Abs(DeltaAfter(ber, t2, k2)) <= precision
    requires forall k :: 0 <= k < k2 ==> Abs(DeltaAfter(ber, t2, k)) > precision
    ensures Probe(ber, t2, k2) <= Probe(ber, t1, k1)
  {
    assert k1 >= 1 && k2 >= 1;
    if k1 < k2 {
      assert Abs(DeltaAfter(ber, t2, k1)) > precision;
      MonotoneSmallerStopsFirst(ber, t1, t2, precision, k1, k2);
    } else if k2 < k1 {
      assert Abs(DeltaAfter(ber, t1, k2)) > precision;
      MonotoneLargerStopsFirst(ber, t1, t2, precision, k1, k2);
    } else {
      MonotoneSamePass(ber, t1, t2, k1);
    }
  }

  /**
    The bisection loop. The Python loop runs while `|delta| > precision`
    and need not stop, so this one also stops after `maxPasses` passes;
    `converged` is the Python exit test and `passes` its counter `n`.
  */
  method Search(ber: real -> real, target: real, precision: real, maxPasses: nat)
    returns (mb: real, passes: nat, converged: bool)
    ensures passes <= maxPasses
    ensures mb == Probe(ber, target, passes)
    ensures InitialLow <= mb <= InitialHigh
    ensures passes >= 1 ==> mb == Bisect(ber, target, passes).lb || mb == Bisect(ber, target, passes).rb
    ensures converged <==> Abs(DeltaAfter(ber, target, passes)) <= precision
    ensures forall k :: 0 <= k < passes ==> Abs(DeltaAfter(ber, target, k)) > precision
    ensures !converged ==> passes == maxPasses
    ensures precision >= InitialDelta ==> passes == 0 && mb == 50.0 && converged
    ensures precision < InitialDelta && maxPasses >= 1 ==> passes >= 1
  {
    var lb := InitialLow;
    var rb := InitialHigh;
    mb := lb + (rb - lb) / 2.0;
    var delta := InitialDelta;
    var n: nat := 0;
    while n < maxPasses && Abs(delta) > precision
      invariant n <= maxPasses
      invariant Bracket(lb, rb) == Bisect(ber, target, n)
      invariant mb == Probe(ber, target, n)
      invariant n >= 1 ==> mb == lb || mb == rb
      invariant delta == DeltaAfter(ber, target, n)
      invariant forall k :: 0 <= k < n ==> Abs(DeltaAfter(ber, target, k)) > precision
    {
      n := n + 1;
      mb := lb + (rb - lb) / 2.0;
      var b := ber(mb);
      delta := if b != 0.0 then (target - b) / b else Sentinel;
      delta := Min(delta, Sentinel);
      if delta > 0.0 {
        rb := mb;
      } else {
        lb := mb;
      }
    }
    passes := n;
    converged := Abs(delta) <= precision;
  }
}
