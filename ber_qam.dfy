/**
  The M-QAM threshold script: `search_ber_qam` and the checks its
  command-line entry makes before calling it. The M-QAM BER formula itself
  (erfc of a square root of a dB-to-linear conversion, scaled by a factor
  that depends on M) is not expressible here; it is the parameter `ber`,
  mapping a constellation size and an Eb/N0 in dB to a BER.
*/
module BerQam {
  import opened Bisection

  /** The precision `search_ber_qam` binds as its default argument: 0.5 %. */
  const DefaultPrecision: real := 0.005

  /**
    `search_ber_qam(target, constellation_size, precision)`, stopped after
    `maxPasses` passes if its exit test has not held by then.
  */
  method SearchBerQam(ber: (int, real) -> real, target: real, constellationSize: int, precision: real, maxPasses: nat)
    returns (mb: real, passes: nat, converged: bool)
    ensures passes <= maxPasses && (!converged ==> passes == maxPasses)
    ensures mb == Probe(Curve(ber, constellationSize), target, passes)
    ensures InitialLow <= mb <= InitialHigh
    ensures converged <==> Abs(DeltaAfter(Curve(ber, constellationSize), target, passes)) <= precision
    ensures forall k :: 0 <= k < passes ==> Abs(DeltaAfter(Curve(ber, constellationSize), target, k)) > precision
    ensures converged && target > 0.0 && precision < 1.0 ==>
              ber(constellationSize, mb) > 0.0 &&
              Abs(target - ber(constellationSize, mb)) <= precision * ber(constellationSize, mb)
  {
    mb, passes, converged := Search(Curve(ber, constellationSize), target, precision, maxPasses);
    if converged && target > 0.0 && precision < 1.0 {
      ConvergedWithinTolerance(Curve(ber, constellationSize), target, precision, passes);
    }
  }

  /**
    The command-line entry: with `M > 1` and a positive target (the checks it
    asserts), the search runs with the default precision, runs at least one
    pass, and on convergence the BER at the returned Eb/N0 is within 0.5 % of
    the target.
  */
  method RequiredEbNo(ber: (int, real) -> real, m: int, target: real, maxPasses: nat)
    returns (gamma: real, passes: nat, converged: bool)
    requires m > 1
    requires target > 0.0
    ensures passes <= maxPasses && (!converged ==> passes == maxPasses)
    ensures gamma == Probe(Curve(ber, m), target, passes)
    ensures InitialLow <= gamma <= InitialHigh
    ensures converged <==> Abs(DeltaAfter(Curve(ber, m), target, passes)) <= DefaultPrecision
    ensures forall k :: 0 <= k < passes ==> Abs(DeltaAfter(Curve(ber, m), target, k)) > DefaultPrecision
    ensures maxPasses >= 1 ==> passes >= 1
    ensures converged ==> ber(m, gamma) > 0.0 && Abs(target - ber(m, gamma)) <= DefaultPrecision * ber(m, gamma)
  {
    gamma, passes, converged := SearchBerQam(ber, target, m, DefaultPrecision, maxPasses);
  }
}
