/** Significance and sensitivity: the regularising floors applied to the
    Li & Ma excess, the percent-of-reference sensitivity, the simple
    `nex / sqrt(nbg * alpha)` estimator and the rejection of cells that
    cannot be used in the minimisation. */
module Significance {
  import opened Numeric

  /** How the 5% systematic floor scales the background count. The two
      branches of the source disagree: the per-energy-bin version multiplies
      by alpha, the grid version (and the older per-bin one) divides by a
      constant (5). */
  datatype BackgroundFloor = ScaledByAlpha | DividedBy(divisor: real)

  /** The constants of the floors: minimum excess (10) and systematic
      fraction (0.05). */
  datatype FloorParams = FloorParams(minExcess: real, systematicFraction: real, background: BackgroundFloor)

  predicate ValidFloorParams(p: FloorParams)
  {
    p.background.DividedBy? ==> p.background.divisor > 0.0
  }

  /** The background floor of one cell. */
  function BackgroundFloorValue(p: FloorParams, nBackground: real, alpha: real): real
    requires ValidFloorParams(p)
  {
    match p.background
    case ScaledByAlpha => p.systematicFraction * nBackground * alpha
    case DividedBy(d) => p.systematicFraction * nBackground / d
  }

  /** The two clamping steps of the floor loops, in the source's order:
      first raise to the minimum excess, then to the background floor.
      The result is the maximum of the three values. */
  function Floored(excess: real, minExcess: real, backgroundFloor: real): (r: real)
    ensures r >= excess && r >= minExcess && r >= backgroundFloor
    ensures r == excess || r == minExcess || r == backgroundFloor
  {
    var raised := if excess < minExcess then minExcess else excess;
    if raised < backgroundFloor then backgroundFloor else raised
  }

  /** For a fixed excess from the solver, more background never lowers
      the floored excess: only the background floor moves. */
  lemma FlooredMonotoneInBackground(p: FloorParams, excess: real, nBackground1: real, nBackground2: real, alpha: real)
    requires ValidFloorParams(p)
    requires p.systematicFraction >= 0.0 && alpha >= 0.0
    requires nBackground1 <= nBackground2
    ensures Floored(excess, p.minExcess, BackgroundFloorValue(p, nBackground1, alpha))
         <= Floored(excess, p.minExcess, BackgroundFloorValue(p, nBackground2, alpha))
  {
    BackgroundFloorMonotone(p, nBackground1, nBackground2, alpha);
  }

  /** When the solver asks for no less excess from more background (as a
      fixed-significance excess does), the excess after both floors grows
      with the background count as well. */
  lemma FlooredExcessMonotoneInBackground(solver: ExcessSolver, p: FloorParams, nOn: real,
                                          nOff1: real, nOff2: real, alpha: real)
    requires ValidFloorParams(p)
    requires p.systematicFraction >= 0.0 && alpha >= 0.0
    requires nOff1 <= nOff2
    requires Solve(solver, nOn, nOff1, alpha) <= Solve(solver, nOn, nOff2, alpha)
    ensures Floored(Solve(solver, nOn, nOff1, alpha), p.minExcess, BackgroundFloorValue(p, nOff1, alpha))
         <= Floored(Solve(solver, nOn, nOff2, alpha), p.minExcess, BackgroundFloorValue(p, nOff2, alpha))
  {
    BackgroundFloorMonotone(p, nOff1, nOff2, alpha);
  }

  /** The background floor grows with the background count. */
  lemma BackgroundFloorMonotone(p: FloorParams, nBackground1: real, nBackground2: real, alpha: real)
    requires ValidFloorParams(p)
    requires p.systematicFraction >= 0.0 && alpha >= 0.0
    requires nBackground1 <= nBackground2
    ensures BackgroundFloorValue(p, nBackground1, alpha) <= BackgroundFloorValue(p, nBackground2, alpha)
  {
    match p.background
    case ScaledByAlpha =>
      ScaledMonotone(p.systematicFraction * alpha, nBackground1, nBackground2);
      assert p.systematicFraction * nBackground1 * alpha == (p.systematicFraction * alpha) * nBackground1;
      assert p.systematicFraction * nBackground2 * alpha == (p.systematicFraction * alpha) * nBackground2;
    case DividedBy(d) =>
      ScaledMonotone(p.systematicFraction / d, nBackground1, nBackground2);
      assert p.systematicFraction * nBackground1 / d == (p.systematicFraction / d) * nBackground1;
      assert p.systematicFraction * nBackground2 / d == (p.systematicFraction / d) * nBackground2;
  }

  lemma ScaledMonotone(c: real, x: real, y: real)
    requires c >= 0.0 && x <= y
    ensures c * x <= c * y
  {
    NonNegativeProduct(c, y - x);
    assert c * y - c * x == c * (y - x);
  }

  /** Sensitivity in percent of the reference flux, `excess / n_on * 100`:
      the percentage of the on-region signal that equals the required excess.
      No signal (`n_on = 0`) with a positive excess is +inf. */
  function PercentOfReference(excess: real, nOn: real): (r: Float)
    ensures nOn != 0.0 ==> r.Finite? && r.v * nOn == 100.0 * excess
    ensures nOn == 0.0 && excess > 0.0 ==> r.PosInf?
    ensures nOn == 0.0 && excess == 0.0 ==> r.NaN?
  {
    Scale(Div(excess, nOn), 100.0)
  }

  /** A positive excess over a positive signal is a finite positive
      sensitivity, and more signal for the same excess is a lower one. */
  lemma PercentOfReferenceDecreasing(excess: real, nOn1: real, nOn2: real)
    requires excess > 0.0 && 0.0 < nOn1 <= nOn2
    ensures PercentOfReference(excess, nOn1).Finite? && PercentOfReference(excess, nOn2).Finite?
    ensures 0.0 < PercentOfReference(excess, nOn2).v <= PercentOfReference(excess, nOn1).v
  {
    var s1 := PercentOfReference(excess, nOn1).v;
    var s2 := PercentOfReference(excess, nOn2).v;
    assert s1 == 100.0 * excess / nOn1;
    assert s2 == 100.0 * excess / nOn2;
  }

  /** The simple estimator of `calculate_sensitivity`: significance
      `nex / sqrt(nbg * alpha)` and sensitivity `5 / significance * 100`.
      The square root is supplied by the caller as `root`; a negative
      radicand makes it NaN. */
  function SimpleSensitivity(nex: real, nbg: real, alpha: real, root: real): (r: Float)
    ensures nbg * alpha < 0.0 ==> r.NaN?
    ensures PositiveOutcome(r, nex, nbg * alpha, root)
  {
    var b := nbg * alpha;
    NegativeRadicandCase(nex, b, root);
    PositiveCase(nex, b, root);
    SensitivityForRadicand(nex, b, root)
  }

  /** The simple estimator for the radicand `b = nbg * alpha`. */
  function SensitivityForRadicand(nex: real, b: real, root: real): Float
  {
    var significance := if b < 0.0 then NaN else Div(nex, root);
    Scale(DivByFloat(5.0, significance), 100.0)
  }

  /** What the simple estimator gives for the radicand `b = nbg * alpha`:
      for a positive excess and background the finite sensitivity `s` with
      `s * nex = 500 * sqrt(b)`, i.e. `s^2 * nex^2 = 250000 * b`; no excess
      is +inf; no background is 0; a negative radicand is NaN. */
  lemma SimpleSensitivityCases(nex: real, b: real, root: real)
    requires b >= 0.0 ==> IsSqrt(b, root)
    ensures var r := SensitivityForRadicand(nex, b, root);
            && (nex > 0.0 && b > 0.0 ==> r.Finite? && SensitivityOfRoot(r.v, nex, b, root))
            && (nex == 0.0 && b > 0.0 ==> r.PosInf?)
            && (nex > 0.0 && b == 0.0 ==> r == Finite(0.0))
            && (b < 0.0 ==> r.NaN?)
  {
    PositiveCase(nex, b, root);
    NoExcessCase(nex, b, root);
    NoBackgroundCase(nex, b, root);
    NegativeRadicandCase(nex, b, root);
  }

  lemma NegativeRadicandCase(nex: real, b: real, root: real)
    ensures b < 0.0 ==> SensitivityForRadicand(nex, b, root).NaN?
  {
    if b < 0.0 {
      assert DivByFloat(5.0, NaN) == NaN;
    }
  }

  /** `s` is a positive sensitivity with `s * nex = 500 * sqrt(b)`, i.e.
      `s^2 * nex^2 = 250000 * b`. */
  predicate SensitivityOfRoot(s: real, nex: real, b: real, root: real)
  {
    s > 0.0 && s * nex == 500.0 * root && s * s * (nex * nex) == 250000.0 * b
  }

  /** For a positive excess and a positive radicand with square root
      `root`, `r` is the finite sensitivity of that root. */
  ghost predicate PositiveOutcome(r: Float, nex: real, b: real, root: real)
  {
    nex > 0.0 && b > 0.0 && IsSqrt(b, root) ==> r.Finite? && SensitivityOfRoot(r.v, nex, b, root)
  }

  lemma PositiveCase(nex: real, b: real, root: real)
    ensures PositiveOutcome(SensitivityForRadicand(nex, b, root), nex, b, root)
  {
    if nex > 0.0 && b > 0.0 && IsSqrt(b, root) {
      SimpleSensitivityValue(nex, b, root);
      assert SensitivityForRadicand(nex, b, root) == Finite(500.0 * root / nex);
    }
  }

  lemma NoExcessCase(nex: real, b: real, root: real)
    requires b >= 0.0 ==> IsSqrt(b, root)
    ensures nex == 0.0 && b > 0.0 ==> SensitivityForRadicand(nex, b, root).PosInf?
  {
    if nex == 0.0 && b > 0.0 {
      NoExcess(b, root);
    }
  }

  lemma NoBackgroundCase(nex: real, b: real, root: real)
    requires b >= 0.0 ==> IsSqrt(b, root)
    ensures nex > 0.0 && b == 0.0 ==> SensitivityForRadicand(nex, b, root) == Finite(0.0)
  {
    if nex > 0.0 && b == 0.0 {
      NoBackground(nex, root);
    }
  }

  lemma NoExcess(b: real, root: real)
    requires b > 0.0 && IsSqrt(b, root)
    ensures Scale(DivByFloat(5.0, Div(0.0, root)), 100.0).PosInf?
  {
    PositiveRoot(b, root);
  }

  lemma NoBackground(nex: real, root: real)
    requires nex > 0.0 && IsSqrt(0.0, root)
    ensures Scale(DivByFloat(5.0, Div(nex, root)), 100.0) == Finite(0.0)
  {
    ZeroRoot(root);
  }

  lemma SimpleSensitivityValue(nex: real, b: real, root: real)
    requires nex > 0.0 && b > 0.0 && IsSqrt(b, root)
    ensures root > 0.0
    ensures Scale(DivByFloat(5.0, Div(nex, root)), 100.0) == Finite(500.0 * root / nex)
    ensures 500.0 * root / nex > 0.0
    ensures (500.0 * root / nex) * nex == 500.0 * root
    ensures (500.0 * root / nex) * (500.0 * root / nex) * (nex * nex) == 250000.0 * b
  {
    PositiveRoot(b, root);
    QuotientChain(nex, root);
    ScaledSquare(500.0 * root / nex, nex, root);
  }

  lemma QuotientChain(nex: real, root: real)
    requires nex > 0.0 && root > 0.0
    ensures nex / root > 0.0
    ensures 5.0 / (nex / root) * 100.0 == 500.0 * root / nex
    ensures 500.0 * root / nex > 0.0
    ensures (500.0 * root / nex) * nex == 500.0 * root
  {
  }

  lemma ScaledSquare(s: real, nex: real, root: real)
    requires s * nex == 500.0 * root
    ensures s * s * (nex * nex) == 250000.0 * (root * root)
  {
    assert s * s * (nex * nex) == (s * nex) * (s * nex);
  }

  /** A larger excess gives a lower (better) simple sensitivity. */
  lemma SimpleSensitivityDecreasing(nex1: real, nex2: real, nbg: real, alpha: real, root: real)
    requires 0.0 < nex1 <= nex2 && nbg * alpha > 0.0 && IsSqrt(nbg * alpha, root)
    ensures SimpleSensitivity(nex1, nbg, alpha, root).Finite? && SimpleSensitivity(nex2, nbg, alpha, root).Finite?
    ensures SimpleSensitivity(nex2, nbg, alpha, root).v <= SimpleSensitivity(nex1, nbg, alpha, root).v
  {
    SimpleSensitivityValue(nex1, nbg * alpha, root);
    SimpleSensitivityValue(nex2, nbg * alpha, root);
    DivAntitone(500.0 * root, nex1, nex2);
  }

  lemma DivAntitone(c: real, x: real, y: real)
    requires c >= 0.0 && 0.0 < x <= y
    ensures c / y <= c / x
  {
  }

  /** The test of the invalid-marking loops: a non-finite or non-positive
      sensitivity, too little weighted background, or too few raw gamma or
      proton events. */
  predicate Rejected(s: Float, finalHadrons: real, preGamma: nat, preHadrons: nat, minNumEvents: real, minPreEvents: nat)
  {
    || !s.Finite? || s.v <= 0.0
    || finalHadrons < minNumEvents
    || preGamma < minPreEvents
    || preHadrons < minPreEvents
  }

  /** A cell after the invalid-marking pass: +inf if rejected, unchanged otherwise. */
  function MarkCell(s: Float, finalHadrons: real, preGamma: nat, preHadrons: nat, minNumEvents: real, minPreEvents: nat): (r: Float)
    ensures r == s || r.PosInf?
    ensures r.PosInf? || (r.Finite? && r.v > 0.0 && finalHadrons >= minNumEvents
                          && preGamma >= minPreEvents && preHadrons >= minPreEvents)
    ensures !Rejected(s, finalHadrons, preGamma, preHadrons, minNumEvents, minPreEvents) ==> r == s
  {
    if Rejected(s, finalHadrons, preGamma, preHadrons, minNumEvents, minPreEvents) then PosInf else s
  }

  /** The external Li & Ma "excess matching 5 sigma" solver, applied to one
      cell: `(n_on, n_off, alpha) -> excess`. */
  type ExcessSolver = (real, real, real) -> real

  /** The solver's excess for `(n_on, n_off, alpha)`. */
  function Solve(solver: ExcessSolver, nOn: real, nOff: real, alpha: real): real
  {
    solver(nOn, nOff, alpha)
  }

  /** `calculate_sensitivity_lima_ebin`: the solver's excess per energy bin,
      raised in place to the two floors, and the sensitivity in percent. */
  method CalculateSensitivityLimaEbin(nOn: array<real>, nBackground: array<real>, alpha: array<real>,
                                      solver: ExcessSolver, p: FloorParams)
    returns (excess: array<real>, sensitivity: array<Float>)
    requires nBackground.Length == nOn.Length && alpha.Length == nOn.Length
    requires ValidFloorParams(p)
    ensures fresh(excess) && fresh(sensitivity)
    ensures excess.Length == nOn.Length && sensitivity.Length == nOn.Length
    ensures forall i :: 0 <= i < nOn.Length ==>
              excess[i] == Floored(Solve(solver, nOn[i], nBackground[i], alpha[i]), p.minExcess,
                                   BackgroundFloorValue(p, nBackground[i], alpha[i]))
    ensures forall i :: 0 <= i < nOn.Length ==> sensitivity[i] == PercentOfReference(excess[i], nOn[i])
  {
    excess := new real[nOn.Length](i reads nOn, nBackground, alpha =>
      if 0 <= i < nOn.Length then Solve(solver, nOn[i], nBackground[i], alpha[i]) else 0.0);
    for i := 0 to nOn.Length
      invariant forall a :: 0 <= a < i ==>
                  excess[a] == Floored(Solve(solver, nOn[a], nBackground[a], alpha[a]), p.minExcess,
                                       BackgroundFloorValue(p, nBackground[a], alpha[a]))
      invariant forall a :: i <= a < nOn.Length ==> excess[a] == Solve(solver, nOn[a], nBackground[a], alpha[a])
    {
      if excess[i] < p.minExcess {
        excess[i] := p.minExcess;
      }
      var backgroundFloor := BackgroundFloorValue(p, nBackground[i], alpha[i]);
      if excess[i] < backgroundFloor {
        excess[i] := backgroundFloor;
      }
    }
    sensitivity := new Float[nOn.Length](i reads excess, nOn =>
      if 0 <= i < nOn.Length then PercentOfReference(excess[i], nOn[i]) else NaN);
  }

  /** The floored excess of one grid cell. */
  ghost function FlooredCell(nOn: array3<real>, nBackground: array3<real>, alpha: real, solver: ExcessSolver,
                             p: FloorParams, a: int, b: int, c: int): real
    reads nOn, nBackground
    requires ValidFloorParams(p)
    requires 0 <= a < nOn.Length0 && 0 <= b < nOn.Length1 && 0 <= c < nOn.Length2
    requires nBackground.Length0 == nOn.Length0 && nBackground.Length1 == nOn.Length1 && nBackground.Length2 == nOn.Length2
  {
    Floored(Solve(solver, nOn[a, b, c], nBackground[a, b, c], alpha), p.minExcess,
            BackgroundFloorValue(p, nBackground[a, b, c], alpha))
  }

  /** `calculate_sensitivity_lima` over the (energy, gammaness, theta2) grid:
      the solver's excess per cell, raised in place to the floors in a triple
      loop, and the sensitivity in percent. */
  method CalculateSensitivityLima(nOn: array3<real>, nBackground: array3<real>, alpha: real,
                                  solver: ExcessSolver, p: FloorParams)
    returns (excess: array3<real>, sensitivity: array3<Float>)
    requires nBackground.Length0 == nOn.Length0 && nBackground.Length1 == nOn.Length1 && nBackground.Length2 == nOn.Length2
    requires ValidFloorParams(p)
    ensures fresh(excess) && fresh(sensitivity)
    ensures excess.Length0 == nOn.Length0 && excess.Length1 == nOn.Length1 && excess.Length2 == nOn.Length2
    ensures sensitivity.Length0 == nOn.Length0 && sensitivity.Length1 == nOn.Length1 && sensitivity.Length2 == nOn.Length2
    ensures forall a, b, c :: 0 <= a < nOn.Length0 && 0 <= b < nOn.Length1 && 0 <= c < nOn.Length2 ==>
              excess[a, b, c] == FlooredCell(nOn, nBackground, alpha, solver, p, a, b, c)
    ensures forall a, b, c :: 0 <= a < nOn.Length0 && 0 <= b < nOn.Length1 && 0 <= c < nOn.Length2 ==>
              sensitivity[a, b, c] == PercentOfReference(excess[a, b, c], nOn[a, b, c])
  {
    var n0, n1, n2 := nOn.Length0, nOn.Length1, nOn.Length2;
    excess := new real[n0, n1, n2]((a, b, c) reads nOn, nBackground =>
      if 0 <= a < n0 && 0 <= b < n1 && 0 <= c < n2 then Solve(solver, nOn[a, b, c], nBackground[a, b, c], alpha) else 0.0);
    for i := 0 to n0
      invariant forall a, b, c :: 0 <= a < n0 && 0 <= b < n1 && 0 <= c < n2 ==>
                  excess[a, b, c] == if a < i then FlooredCell(nOn, nBackground, alpha, solver, p, a, b, c)
                                     else Solve(solver, nOn[a, b, c], nBackground[a, b, c], alpha)
    {
      for j := 0 to n1
        invariant forall a, b, c :: 0 <= a < n0 && 0 <= b < n1 && 0 <= c < n2 ==>
                    excess[a, b, c] == if LexBefore(a, b, c, i, j, 0) then FlooredCell(nOn, nBackground, alpha, solver, p, a, b, c)
                                       else Solve(solver, nOn[a, b, c], nBackground[a, b, c], alpha)
      {
        for k := 0 to n2
          invariant forall a, b, c :: 0 <= a < n0 && 0 <= b < n1 && 0 <= c < n2 ==>
                      excess[a, b, c] == if LexBefore(a, b, c, i, j, k) then FlooredCell(nOn, nBackground, alpha, solver, p, a, b, c)
                                         else Solve(solver, nOn[a, b, c], nBackground[a, b, c], alpha)
        {
          if excess[i, j, k] < p.minExcess {
            excess[i, j, k] := p.minExcess;
          }
          var backgroundFloor := BackgroundFloorValue(p, nBackground[i, j, k], alpha);
          if excess[i, j, k] < backgroundFloor {
            excess[i, j, k] := backgroundFloor;
          }
        }
      }
    }
    sensitivity := new Float[n0, n1, n2]((a, b, c) reads excess, nOn =>
      if 0 <= a < n0 && 0 <= b < n1 && 0 <= c < n2 then PercentOfReference(excess[a, b, c], nOn[a, b, c]) else NaN);
  }
}
