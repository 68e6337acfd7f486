/** The quantities the sensitivity code computes for one energy bin and
    one (gammaness, theta2) cut: weighted gamma and proton rates times the
    observation time, raw event counts, the floored Li & Ma excess, the
    sensitivity after the invalid-marking test, and the result row the
    source reports for a chosen cut. Both the grid optimiser and the
    fixed-cut calculation are stated through these functions. */
module CutQuantities {
  import opened Numeric
  import opened RingContainment
  import opened EventSelection
  import opened Significance

  /** The inputs shared by the counting loops: the reconstructed gamma and
      proton tables (each event's `weight` is its rate weight), the
      background ring and the observation time in seconds. */
  datatype Sample = Sample(gammas: seq<Event>, protons: seq<Event>, ring: Ring, obstime: real)

  /** The ring area is positive, so the area ratio is defined. */
  predicate ValidSample(s: Sample)
  {
    AreaOverPi(s.ring) > 0.0
  }

  /** The weights are rate weights, and the observation time is not negative. */
  predicate PhysicalSample(s: Sample)
  {
    NonNegativeWeights(s.gammas) && NonNegativeWeights(s.protons) && s.obstime >= 0.0
  }

  /** The limits of the acceptance test. */
  datatype Limits = Limits(minNumEvents: real, minPreEvents: nat)

  /** `final_gamma`: the gamma rate kept by the cut, times the observation time. */
  function FinalGamma(s: Sample, lo: real, hi: real, g: real, t: real): real
  {
    WeightSum(s.gammas, GammaCut(lo, hi, g, t)) * s.obstime
  }

  /** `final_hadrons`: the proton rate in the ring, times the observation
      time and the on-region to ring area ratio of the theta2 cut. */
  function FinalHadrons(s: Sample, lo: real, hi: real, g: real, t: real): real
    requires ValidSample(s)
  {
    WeightSum(s.protons, ProtonCut(lo, hi, g, s.ring)) * s.obstime * AreaRatio(t, s.ring)
  }

  /** `pre_gamma`: the number of gamma events kept by the cut. */
  function PreGamma(s: Sample, lo: real, hi: real, g: real, t: real): nat
  {
    Count(s.gammas, GammaCut(lo, hi, g, t))
  }

  /** `pre_hadrons`: the number of proton events kept in the ring. */
  function PreHadrons(s: Sample, lo: real, hi: real, g: real): nat
  {
    Count(s.protons, ProtonCut(lo, hi, g, s.ring))
  }

  /** `ngamma_per_ebin`: the gamma rate of the whole bin, times the observation time. */
  function GammaPerBin(s: Sample, lo: real, hi: real): real
  {
    WeightSum(s.gammas, BinCut(lo, hi)) * s.obstime
  }

  /** `nhadron_per_ebin`: the proton rate of the whole bin, times the observation time. */
  function HadronPerBin(s: Sample, lo: real, hi: real): real
  {
    WeightSum(s.protons, BinCut(lo, hi)) * s.obstime
  }

  /** `final_hadrons * noff`: the background count handed to the solver as `n_off`. */
  function CellBackground(s: Sample, noff: real, lo: real, hi: real, g: real, t: real): real
    requires ValidSample(s)
  {
    FinalHadrons(s, lo, hi, g, t) * noff
  }

  /** The Li & Ma excess of a cell, raised to the floors; the solver is
      called with `n_on = final_gamma`, `n_off = final_hadrons * noff` and
      `alpha = 1 / noff`. */
  function CellExcess(s: Sample, noff: real, solver: ExcessSolver, p: FloorParams,
                      lo: real, hi: real, g: real, t: real): (r: real)
    requires ValidSample(s) && noff != 0.0 && ValidFloorParams(p)
    ensures r >= Solve(solver, FinalGamma(s, lo, hi, g, t), CellBackground(s, noff, lo, hi, g, t), 1.0 / noff)
    ensures r >= p.minExcess && r >= BackgroundFloorValue(p, CellBackground(s, noff, lo, hi, g, t), 1.0 / noff)
  {
    Floored(Solve(solver, FinalGamma(s, lo, hi, g, t), CellBackground(s, noff, lo, hi, g, t), 1.0 / noff),
            p.minExcess, BackgroundFloorValue(p, CellBackground(s, noff, lo, hi, g, t), 1.0 / noff))
  }

  /** The sensitivity of a cell in percent, before the acceptance test. */
  function CellSensitivity(s: Sample, noff: real, solver: ExcessSolver, p: FloorParams,
                           lo: real, hi: real, g: real, t: real): Float
    requires ValidSample(s) && noff != 0.0 && ValidFloorParams(p)
  {
    PercentOfReference(CellExcess(s, noff, solver, p, lo, hi, g, t), FinalGamma(s, lo, hi, g, t))
  }

  /** The sensitivity of a cell after the acceptance test: +inf unless the
      cell is usable. */
  function MarkedSensitivity(s: Sample, noff: real, solver: ExcessSolver, p: FloorParams, lim: Limits,
                             lo: real, hi: real, g: real, t: real): (r: Float)
    requires ValidSample(s) && noff != 0.0 && ValidFloorParams(p)
    ensures r.PosInf? || (r.Finite? && r.v > 0.0)
  {
    MarkCell(CellSensitivity(s, noff, solver, p, lo, hi, g, t), FinalHadrons(s, lo, hi, g, t),
             PreGamma(s, lo, hi, g, t), PreHadrons(s, lo, hi, g), lim.minNumEvents, lim.minPreEvents)
  }

  /** A usable cell is only ever reported with a positive finite sensitivity
      and at least the required background and raw event counts; every
      other cell is reported as +inf. */
  lemma MarkedSensitivityMeaning(s: Sample, noff: real, solver: ExcessSolver, p: FloorParams, lim: Limits,
                                 lo: real, hi: real, g: real, t: real)
    requires ValidSample(s) && noff != 0.0 && ValidFloorParams(p)
    ensures var m := MarkedSensitivity(s, noff, solver, p, lim, lo, hi, g, t);
            var c := CellSensitivity(s, noff, solver, p, lo, hi, g, t);
            && (m.PosInf? || m.Finite?)
            && (m.Finite? <==>
                  && c.Finite? && c.v > 0.0
                  && FinalHadrons(s, lo, hi, g, t) >= lim.minNumEvents
                  && PreGamma(s, lo, hi, g, t) >= lim.minPreEvents
                  && PreHadrons(s, lo, hi, g) >= lim.minPreEvents)
            && (m.Finite? ==> m == c && m.v > 0.0)
  {
  }

  /** One row of the results table (without its energy edges). */
  datatype BinResult = BinResult(
    gammanessCut: real, theta2Cut: real,
    nGammas: real, nHadrons: real,
    gammaRate: Float, hadronRate: Float,
    excess: real, sensitivity: Float,
    effGamma: Float, effHadron: Float,
    nEventsGamma: nat, nEventsProton: nat)

  /** The row reported for energy bin `(lo, hi)` and cut `(g, t)`: rates per
      minute, the floored excess, the marked sensitivity, the efficiencies
      relative to the whole bin, and the raw counts after cuts on the true
      energy. */
  function ResultRow(s: Sample, noff: real, solver: ExcessSolver, p: FloorParams, lim: Limits,
                     lo: real, hi: real, g: real, t: real): BinResult
    requires ValidSample(s) && noff != 0.0 && ValidFloorParams(p)
  {
    var fg := FinalGamma(s, lo, hi, g, t);
    var fh := FinalHadrons(s, lo, hi, g, t);
    BinResult(
      g, t, fg, fh,
      Div(fg, s.obstime / 60.0), Div(fh, s.obstime / 60.0),
      CellExcess(s, noff, solver, p, lo, hi, g, t),
      MarkedSensitivity(s, noff, solver, p, lim, lo, hi, g, t),
      Div(fg, GammaPerBin(s, lo, hi)), Div(fh, HadronPerBin(s, lo, hi)),
      Count(s.gammas, Full(True, lo, hi, g, ThetaBelow(t))),
      Count(s.protons, Full(True, lo, hi, g, InRing(s.ring))))
  }

  lemma MultiplyMonotone(a: real, b: real, c: real)
    requires a <= b && c >= 0.0
    ensures a * c <= b * c
  {
    NonNegativeProduct(b - a, c);
    assert b * c - a * c == (b - a) * c;
  }

  /** A tighter cut (higher gammaness, smaller theta2) keeps no more gamma
      signal and no more raw gamma events. */
  lemma FinalGammaMonotone(s: Sample, lo: real, hi: real, g1: real, g2: real, t1: real, t2: real)
    requires PhysicalSample(s)
    requires g1 <= g2 && t1 <= t2
    ensures FinalGamma(s, lo, hi, g2, t1) <= FinalGamma(s, lo, hi, g1, t2)
    ensures PreGamma(s, lo, hi, g2, t1) <= PreGamma(s, lo, hi, g1, t2)
  {
    GammaCutMonotone(s.gammas, lo, hi, g1, g2, t1, t2);
    MultiplyMonotone(WeightSum(s.gammas, GammaCut(lo, hi, g2, t1)), WeightSum(s.gammas, GammaCut(lo, hi, g1, t2)), s.obstime);
  }

  /** A higher gammaness cut keeps no more background, and a larger theta2
      cut scales the ring background to a larger on-region. */
  lemma FinalHadronsMonotone(s: Sample, lo: real, hi: real, g1: real, g2: real, t1: real, t2: real)
    requires ValidSample(s) && PhysicalSample(s)
    requires g1 <= g2 && 0.0 <= t1 <= t2
    ensures 0.0 <= FinalHadrons(s, lo, hi, g2, t1) <= FinalHadrons(s, lo, hi, g1, t2)
    ensures PreHadrons(s, lo, hi, g2) <= PreHadrons(s, lo, hi, g1)
  {
    ProtonCutMonotone(s.protons, lo, hi, g1, g2, s.ring);
    var w1 := WeightSum(s.protons, ProtonCut(lo, hi, g2, s.ring));
    var w2 := WeightSum(s.protons, ProtonCut(lo, hi, g1, s.ring));
    WeightSumNonNegative(s.protons, ProtonCut(lo, hi, g2, s.ring));
    MultiplyMonotone(w1, w2, s.obstime);
    NonNegativeProduct(w1, s.obstime);
    var r1 := AreaRatio(t1, s.ring);
    var r2 := AreaRatio(t2, s.ring);
    AreaRatioMonotone(t1, t2, s.ring);
    ChainedMonotone(w1 * s.obstime, w2 * s.obstime, r1, r2);
  }

  lemma AreaRatioMonotone(t1: real, t2: real, ring: Ring)
    requires AreaOverPi(ring) > 0.0 && 0.0 <= t1 <= t2
    ensures 0.0 <= AreaRatio(t1, ring) <= AreaRatio(t2, ring)
  {
    DivMonotone(t1, t2, AreaOverPi(ring));
  }

  lemma DivMonotone(a: real, b: real, c: real)
    requires 0.0 <= a <= b && c > 0.0
    ensures 0.0 <= a / c <= b / c
  {
  }

  lemma ChainedMonotone(x1: real, x2: real, y1: real, y2: real)
    requires 0.0 <= x1 <= x2 && 0.0 <= y1 <= y2
    ensures 0.0 <= x1 * y1 <= x2 * y2
  {
    NonNegativeProduct(x1, y1);
    MultiplyMonotone(x1, x2, y1);
    NonNegativeProduct(x2, y2 - y1);
    assert x2 * y2 == x2 * y1 + x2 * (y2 - y1);
  }

  /** The gamma efficiency `final_gamma / ngamma_per_ebin` reported in a
      row is a fraction in `[0, 1]` whenever the bin has a positive rate and
      the observation time is positive. */
  lemma GammaEfficiencyBounded(s: Sample, lo: real, hi: real, g: real, t: real)
    requires PhysicalSample(s)
    requires s.obstime > 0.0 && WeightSum(s.gammas, BinCut(lo, hi)) > 0.0
    ensures var e := Div(FinalGamma(s, lo, hi, g, t), GammaPerBin(s, lo, hi));
            e.Finite? && 0.0 <= e.v <= 1.0
  {
    GammaEfficiencyInUnitInterval(s.gammas, lo, hi, g, t, s.obstime);
    assert Div(FinalGamma(s, lo, hi, g, t), GammaPerBin(s, lo, hi))
        == Efficiency(WeightSum(s.gammas, GammaCut(lo, hi, g, t)), WeightSum(s.gammas, BinCut(lo, hi)), s.obstime);
  }
}
