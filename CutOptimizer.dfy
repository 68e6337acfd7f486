/** `find_best_cuts_sens`: fill the (energy, gammaness, theta2) grid of
    weighted and raw counts, compute the floored Li & Ma sensitivity of
    every cell, mark the unusable cells as +inf, and pick per energy bin
    the cell of lowest sensitivity with `nanargmin`. */
module CutOptimizer {
  import opened Numeric
  import opened RingContainment
  import opened EventSelection
  import opened Significance
  import opened Binning
  import opened CutQuantities

  /** The triple counting loop over energy bins; the inner loops are
      `FillEnergyBin` and `FillRow`. The per-bin totals are written inside the innermost
      loop, so they are only set when both cut grids are non-empty, as in
      the source. */
  method FillGrid(s: Sample, E: seq<real>, g: seq<real>, t: seq<real>)
    returns (finalGamma: array3<real>, finalHadrons: array3<real>,
             preGamma: array3<nat>, preHadrons: array3<nat>,
             gammaPerBin: array<real>, hadronPerBin: array<real>)
    requires ValidSample(s) && |E| >= 1
    ensures fresh(finalGamma) && fresh(finalHadrons) && fresh(preGamma) && fresh(preHadrons)
    ensures fresh(gammaPerBin) && fresh(hadronPerBin)
    ensures GridShape(finalGamma, |E| - 1, |g|, |t|) && GridShape(finalHadrons, |E| - 1, |g|, |t|)
    ensures GridShape(preGamma, |E| - 1, |g|, |t|) && GridShape(preHadrons, |E| - 1, |g|, |t|)
    ensures gammaPerBin.Length == |E| - 1 && hadronPerBin.Length == |E| - 1
    ensures forall a, b, c {:trigger finalGamma[a, b, c]} :: 0 <= a < |E| - 1 && 0 <= b < |g| && 0 <= c < |t| ==>
              finalGamma[a, b, c] == FinalGamma(s, E[a], E[a + 1], g[b], t[c])
    ensures forall a, b, c {:trigger finalHadrons[a, b, c]} :: 0 <= a < |E| - 1 && 0 <= b < |g| && 0 <= c < |t| ==>
              finalHadrons[a, b, c] == FinalHadrons(s, E[a], E[a + 1], g[b], t[c])
    ensures forall a, b, c {:trigger preGamma[a, b, c]} :: 0 <= a < |E| - 1 && 0 <= b < |g| && 0 <= c < |t| ==>
              preGamma[a, b, c] == PreGamma(s, E[a], E[a + 1], g[b], t[c])
    ensures forall a, b, c {:trigger preHadrons[a, b, c]} :: 0 <= a < |E| - 1 && 0 <= b < |g| && 0 <= c < |t| ==>
              preHadrons[a, b, c] == PreHadrons(s, E[a], E[a + 1], g[b])
    ensures |g| > 0 && |t| > 0 ==>
              forall a :: 0 <= a < |E| - 1 ==>
                gammaPerBin[a] == GammaPerBin(s, E[a], E[a + 1]) && hadronPerBin[a] == HadronPerBin(s, E[a], E[a + 1])
  {
    var n0, n1, n2 := |E| - 1, |g|, |t|;
    finalGamma := new real[n0, n1, n2];
    finalHadrons := new real[n0, n1, n2];
    preGamma := new nat[n0, n1, n2];
    preHadrons := new nat[n0, n1, n2];
    gammaPerBin := new real[n0];
    hadronPerBin := new real[n0];
    for i := 0 to n0
      invariant forall a, b, c {:trigger finalGamma[a, b, c]} :: 0 <= a < |E| - 1 && 0 <= b < |g| && 0 <= c < |t| && a < i ==>
                finalGamma[a, b, c] == FinalGamma(s, E[a], E[a + 1], g[b], t[c])
      invariant forall a, b, c {:trigger finalHadrons[a, b, c]} :: 0 <= a < |E| - 1 && 0 <= b < |g| && 0 <= c < |t| && a < i ==>
                finalHadrons[a, b, c] == FinalHadrons(s, E[a], E[a + 1], g[b], t[c])
      invariant forall a, b, c {:trigger preGamma[a, b, c]} :: 0 <= a < |E| - 1 && 0 <= b < |g| && 0 <= c < |t| && a < i ==>
                preGamma[a, b, c] == PreGamma(s, E[a], E[a + 1], g[b], t[c])
      invariant forall a, b, c {:trigger preHadrons[a, b, c]} :: 0 <= a < |E| - 1 && 0 <= b < |g| && 0 <= c < |t| && a < i ==>
                preHadrons[a, b, c] == PreHadrons(s, E[a], E[a + 1], g[b])
      invariant n1 > 0 && n2 > 0 ==> forall a {:trigger gammaPerBin[a]} :: 0 <= a < i ==> gammaPerBin[a] == GammaPerBin(s, E[a], E[a + 1])
      invariant n1 > 0 && n2 > 0 ==> forall a {:trigger hadronPerBin[a]} :: 0 <= a < i ==> hadronPerBin[a] == HadronPerBin(s, E[a], E[a + 1])
    {
      FillEnergyBin(s, E, g, t, i, finalGamma, finalHadrons, preGamma, preHadrons, gammaPerBin, hadronPerBin);
    }
  }

  /** The gammaness loop of one energy bin `i`: its plane of the four grids
      is filled and, when the plane is not empty, its per-bin totals;
      nothing else changes. */
  method FillEnergyBin(s: Sample, E: seq<real>, g: seq<real>, t: seq<real>, i: nat,
                       finalGamma: array3<real>, finalHadrons: array3<real>,
                       preGamma: array3<nat>, preHadrons: array3<nat>,
                       gammaPerBin: array<real>, hadronPerBin: array<real>)
    modifies finalGamma, finalHadrons, preGamma, preHadrons, gammaPerBin, hadronPerBin
    requires ValidSample(s) && i < |E| - 1
    requires finalGamma != finalHadrons && preGamma != preHadrons && gammaPerBin != hadronPerBin
    requires GridShape(finalGamma, |E| - 1, |g|, |t|) && GridShape(finalHadrons, |E| - 1, |g|, |t|)
    requires GridShape(preGamma, |E| - 1, |g|, |t|) && GridShape(preHadrons, |E| - 1, |g|, |t|)
    requires gammaPerBin.Length == |E| - 1 && hadronPerBin.Length == |E| - 1
    ensures forall a, b, c {:trigger finalGamma[a, b, c]} :: 0 <= a < |E| - 1 && 0 <= b < |g| && 0 <= c < |t| ==>
              finalGamma[a, b, c] == if a == i then FinalGamma(s, E[a], E[a + 1], g[b], t[c]) else old(finalGamma[a, b, c])
    ensures forall a, b, c {:trigger finalHadrons[a, b, c]} :: 0 <= a < |E| - 1 && 0 <= b < |g| && 0 <= c < |t| ==>
              finalHadrons[a, b, c] == if a == i then FinalHadrons(s, E[a], E[a + 1], g[b], t[c]) else old(finalHadrons[a, b, c])
    ensures forall a, b, c {:trigger preGamma[a, b, c]} :: 0 <= a < |E| - 1 && 0 <= b < |g| && 0 <= c < |t| ==>
              preGamma[a, b, c] == if a == i then PreGamma(s, E[a], E[a + 1], g[b], t[c]) else old(preGamma[a, b, c])
    ensures forall a, b, c {:trigger preHadrons[a, b, c]} :: 0 <= a < |E| - 1 && 0 <= b < |g| && 0 <= c < |t| ==>
              preHadrons[a, b, c] == if a == i then PreHadrons(s, E[a], E[a + 1], g[b]) else old(preHadrons[a, b, c])
    ensures forall a {:trigger gammaPerBin[a]} :: 0 <= a < |E| - 1 ==>
              gammaPerBin[a] == if a == i && |g| > 0 && |t| > 0 then GammaPerBin(s, E[a], E[a + 1]) else old(gammaPerBin[a])
    ensures forall a {:trigger hadronPerBin[a]} :: 0 <= a < |E| - 1 ==>
              hadronPerBin[a] == if a == i && |g| > 0 && |t| > 0 then HadronPerBin(s, E[a], E[a + 1]) else old(hadronPerBin[a])
  {
    for j := 0 to |g|
      invariant forall a, b, c {:trigger finalGamma[a, b, c]} :: 0 <= a < |E| - 1 && 0 <= b < |g| && 0 <= c < |t| ==>
                finalGamma[a, b, c] == if a == i && b < j then FinalGamma(s, E[a], E[a + 1], g[b], t[c]) else old(finalGamma[a, b, c])
      invariant forall a, b, c {:trigger finalHadrons[a, b, c]} :: 0 <= a < |E| - 1 && 0 <= b < |g| && 0 <= c < |t| ==>
                finalHadrons[a, b, c] == if a == i && b < j then FinalHadrons(s, E[a], E[a + 1], g[b], t[c]) else old(finalHadrons[a, b, c])
      invariant forall a, b, c {:trigger preGamma[a, b, c]} :: 0 <= a < |E| - 1 && 0 <= b < |g| && 0 <= c < |t| ==>
                preGamma[a, b, c] == if a == i && b < j then PreGamma(s, E[a], E[a + 1], g[b], t[c]) else old(preGamma[a, b, c])
      invariant forall a, b, c {:trigger preHadrons[a, b, c]} :: 0 <= a < |E| - 1 && 0 <= b < |g| && 0 <= c < |t| ==>
                preHadrons[a, b, c] == if a == i && b < j then PreHadrons(s, E[a], E[a + 1], g[b]) else old(preHadrons[a, b, c])
      invariant forall a {:trigger gammaPerBin[a]} :: 0 <= a < |E| - 1 ==>
                gammaPerBin[a] == if a == i && j > 0 && |t| > 0 then GammaPerBin(s, E[a], E[a + 1]) else old(gammaPerBin[a])
      invariant forall a {:trigger hadronPerBin[a]} :: 0 <= a < |E| - 1 ==>
                hadronPerBin[a] == if a == i && j > 0 && |t| > 0 then HadronPerBin(s, E[a], E[a + 1]) else old(hadronPerBin[a])
    {
      FillRow(s, E, g, t, i, j, finalGamma, finalHadrons, preGamma, preHadrons, gammaPerBin, hadronPerBin);
    }
  }

  /** The theta2 loop of energy bin `i` and gammaness cut `j`: row `(i, j)`
      of the four grids is filled and, when the row is not empty, the
      per-bin totals of bin `i`; nothing else changes. */
  method FillRow(s: Sample, E: seq<real>, g: seq<real>, t: seq<real>, i: nat, j: nat,
                 finalGamma: array3<real>, finalHadrons: array3<real>,
                 preGamma: array3<nat>, preHadrons: array3<nat>,
                 gammaPerBin: array<real>, hadronPerBin: array<real>)
    modifies finalGamma, finalHadrons, preGamma, preHadrons, gammaPerBin, hadronPerBin
    requires ValidSample(s) && i < |E| - 1 && j < |g|
    requires finalGamma != finalHadrons && preGamma != preHadrons && gammaPerBin != hadronPerBin
    requires GridShape(finalGamma, |E| - 1, |g|, |t|) && GridShape(finalHadrons, |E| - 1, |g|, |t|)
    requires GridShape(preGamma, |E| - 1, |g|, |t|) && GridShape(preHadrons, |E| - 1, |g|, |t|)
    requires gammaPerBin.Length == |E| - 1 && hadronPerBin.Length == |E| - 1
    ensures forall a, b, c {:trigger finalGamma[a, b, c]} :: 0 <= a < |E| - 1 && 0 <= b < |g| && 0 <= c < |t| ==>
              finalGamma[a, b, c] == if a == i && b == j then FinalGamma(s, E[a], E[a + 1], g[b], t[c]) else old(finalGamma[a, b, c])
    ensures forall a, b, c {:trigger finalHadrons[a, b, c]} :: 0 <= a < |E| - 1 && 0 <= b < |g| && 0 <= c < |t| ==>
              finalHadrons[a, b, c] == if a == i && b == j then FinalHadrons(s, E[a], E[a + 1], g[b], t[c]) else old(finalHadrons[a, b, c])
    ensures forall a, b, c {:trigger preGamma[a, b, c]} :: 0 <= a < |E| - 1 && 0 <= b < |g| && 0 <= c < |t| ==>
              preGamma[a, b, c] == if a == i && b == j then PreGamma(s, E[a], E[a + 1], g[b], t[c]) else old(preGamma[a, b, c])
    ensures forall a, b, c {:trigger preHadrons[a, b, c]} :: 0 <= a < |E| - 1 && 0 <= b < |g| && 0 <= c < |t| ==>
              preHadrons[a, b, c] == if a == i && b == j then PreHadrons(s, E[a], E[a + 1], g[b]) else old(preHadrons[a, b, c])
    ensures forall a {:trigger gammaPerBin[a]} :: 0 <= a < |E| - 1 ==>
              gammaPerBin[a] == if a == i && |t| > 0 then GammaPerBin(s, E[a], E[a + 1]) else old(gammaPerBin[a])
    ensures forall a {:trigger hadronPerBin[a]} :: 0 <= a < |E| - 1 ==>
              hadronPerBin[a] == if a == i && |t| > 0 then HadronPerBin(s, E[a], E[a + 1]) else old(hadronPerBin[a])
  {
    for k := 0 to |t|
      invariant forall a, b, c {:trigger finalGamma[a, b, c]} :: 0 <= a < |E| - 1 && 0 <= b < |g| && 0 <= c < |t| ==>
                finalGamma[a, b, c] == if a == i && b == j && c < k then FinalGamma(s, E[a], E[a + 1], g[b], t[c]) else old(finalGamma[a, b, c])
      invariant forall a, b, c {:trigger finalHadrons[a, b, c]} :: 0 <= a < |E| - 1 && 0 <= b < |g| && 0 <= c < |t| ==>
                finalHadrons[a, b, c] == if a == i && b == j && c < k then FinalHadrons(s, E[a], E[a + 1], g[b], t[c]) else old(finalHadrons[a, b, c])
      invariant forall a, b, c {:trigger preGamma[a, b, c]} :: 0 <= a < |E| - 1 && 0 <= b < |g| && 0 <= c < |t| ==>
                preGamma[a, b, c] == if a == i && b == j && c < k then PreGamma(s, E[a], E[a + 1], g[b], t[c]) else old(preGamma[a, b, c])
      invariant forall a, b, c {:trigger preHadrons[a, b, c]} :: 0 <= a < |E| - 1 && 0 <= b < |g| && 0 <= c < |t| ==>
                preHadrons[a, b, c] == if a == i && b == j && c < k then PreHadrons(s, E[a], E[a + 1], g[b]) else old(preHadrons[a, b, c])
      invariant forall a {:trigger gammaPerBin[a]} :: 0 <= a < |E| - 1 ==>
                gammaPerBin[a] == if a == i && k > 0 then GammaPerBin(s, E[a], E[a + 1]) else old(gammaPerBin[a])
      invariant forall a {:trigger hadronPerBin[a]} :: 0 <= a < |E| - 1 ==>
                hadronPerBin[a] == if a == i && k > 0 then HadronPerBin(s, E[a], E[a + 1]) else old(hadronPerBin[a])
    {
      finalGamma[i, j, k] := FinalGamma(s, E[i], E[i + 1], g[j], t[k]);
      finalHadrons[i, j, k] := FinalHadrons(s, E[i], E[i + 1], g[j], t[k]);
      preGamma[i, j, k] := PreGamma(s, E[i], E[i + 1], g[j], t[k]);
      preHadrons[i, j, k] := PreHadrons(s, E[i], E[i + 1], g[j]);
      gammaPerBin[i] := GammaPerBin(s, E[i], E[i + 1]);
      hadronPerBin[i] := HadronPerBin(s, E[i], E[i + 1]);
    }
  }

  predicate GridShape<T>(a: array3<T>, n0: int, n1: int, n2: int)
  {
    a.Length0 == n0 && a.Length1 == n1 && a.Length2 == n2
  }

  /** The invalid-marking triple loop: every rejected cell becomes +inf,
      every other cell keeps its sensitivity. */
  method MarkInvalidCells(sens: array3<Float>, finalHadrons: array3<real>,
                           preGamma: array3<nat>, preHadrons: array3<nat>, lim: Limits)
    modifies sens
    requires GridShape(finalHadrons, sens.Length0, sens.Length1, sens.Length2)
    requires GridShape(preGamma, sens.Length0, sens.Length1, sens.Length2)
    requires GridShape(preHadrons, sens.Length0, sens.Length1, sens.Length2)
    ensures forall a, b, c :: 0 <= a < sens.Length0 && 0 <= b < sens.Length1 && 0 <= c < sens.Length2 ==>
              sens[a, b, c] == MarkCell(old(sens[a, b, c]), finalHadrons[a, b, c], preGamma[a, b, c],
                                        preHadrons[a, b, c], lim.minNumEvents, lim.minPreEvents)
  {
    var n0, n1, n2 := sens.Length0, sens.Length1, sens.Length2;
    for i := 0 to n0
      invariant forall a, b, c :: 0 <= a < n0 && 0 <= b < n1 && 0 <= c < n2 ==>
                  sens[a, b, c] == if a < i then MarkCell(old(sens[a, b, c]), finalHadrons[a, b, c], preGamma[a, b, c],
                                                          preHadrons[a, b, c], lim.minNumEvents, lim.minPreEvents)
                                   else old(sens[a, b, c])
    {
      for j := 0 to n1
        invariant forall a, b, c :: 0 <= a < n0 && 0 <= b < n1 && 0 <= c < n2 ==>
                    sens[a, b, c] == if LexBefore(a, b, c, i, j, 0)
                                     then MarkCell(old(sens[a, b, c]), finalHadrons[a, b, c], preGamma[a, b, c],
                                                   preHadrons[a, b, c], lim.minNumEvents, lim.minPreEvents)
                                     else old(sens[a, b, c])
      {
        for k := 0 to n2
          invariant forall a, b, c :: 0 <= a < n0 && 0 <= b < n1 && 0 <= c < n2 ==>
                      sens[a, b, c] == if LexBefore(a, b, c, i, j, k)
                                       then MarkCell(old(sens[a, b, c]), finalHadrons[a, b, c], preGamma[a, b, c],
                                                     preHadrons[a, b, c], lim.minNumEvents, lim.minPreEvents)
                                       else old(sens[a, b, c])
        {
          if Rejected(sens[i, j, k], finalHadrons[i, j, k], preGamma[i, j, k], preHadrons[i, j, k],
                      lim.minNumEvents, lim.minPreEvents) {
            sens[i, j, k] := PosInf;
          }
        }
      }
    }
  }

  /** The key `nanargmin` minimises: NaN is read as +inf. */
  function NanAsInf(x: Float): (r: Float)
    ensures !r.NaN?
    ensures !x.NaN? ==> r == x
  {
    if x.NaN? then PosInf else x
  }

  /** Cell `(b, c)` comes before cell `(j, k)` in row-major order. */
  predicate RowMajorBefore(b: int, c: int, j: int, k: int)
  {
    b < j || (b == j && c < k)
  }

  /** `(j, k)` is where `nanargmin` of the plane `a[i]` lands: the first
      cell, in row-major order, of least key. */
  ghost predicate IsNanArgmin(a: array3<Float>, i: int, j: int, k: int)
    reads a
    requires 0 <= i < a.Length0 && 0 <= j < a.Length1 && 0 <= k < a.Length2
  {
    forall b, c {:trigger a[i, b, c]} :: 0 <= b < a.Length1 && 0 <= c < a.Length2 ==>
      && Le(NanAsInf(a[i, j, k]), NanAsInf(a[i, b, c]))
      && (RowMajorBefore(b, c, j, k) ==> Lt(NanAsInf(a[i, j, k]), NanAsInf(a[i, b, c])))
  }

  /** `np.unravel_index(np.nanargmin(a[i]), a[i].shape)`. `found` is false
      exactly when the plane holds no number, where numpy raises a
      `ValueError` (an all-NaN or an empty plane). */
  method NanArgmin(a: array3<Float>, i: nat) returns (found: bool, j: nat, k: nat)
    requires i < a.Length0
    ensures found <==> exists b, c :: 0 <= b < a.Length1 && 0 <= c < a.Length2 && !a[i, b, c].NaN?
    ensures found ==> j < a.Length1 && k < a.Length2 && IsNanArgmin(a, i, j, k)
  {
    found, j, k := false, 0, 0;
    if a.Length1 == 0 || a.Length2 == 0 {
      return;
    }
    var best := NanAsInf(a[i, 0, 0]);
    for b := 0 to a.Length1
      invariant j < a.Length1 && k < a.Length2 && best == NanAsInf(a[i, j, k])
      invariant !RowMajorBefore(b, 0, j, k)
      invariant forall bb, cc :: 0 <= bb < b && 0 <= cc < a.Length2 ==>
                  Le(best, NanAsInf(a[i, bb, cc])) && (RowMajorBefore(bb, cc, j, k) ==> Lt(best, NanAsInf(a[i, bb, cc])))
      invariant found <==> exists bb, cc :: 0 <= bb < b && 0 <= cc < a.Length2 && !a[i, bb, cc].NaN?
    {
      for c := 0 to a.Length2
        invariant j < a.Length1 && k < a.Length2 && best == NanAsInf(a[i, j, k])
        invariant !RowMajorBefore(b, c, j, k)
        invariant forall bb, cc :: 0 <= bb < a.Length1 && 0 <= cc < a.Length2 && RowMajorBefore(bb, cc, b, c) ==>
                    Le(best, NanAsInf(a[i, bb, cc])) && (RowMajorBefore(bb, cc, j, k) ==> Lt(best, NanAsInf(a[i, bb, cc])))
        invariant found <==> exists bb, cc :: 0 <= bb < a.Length1 && 0 <= cc < a.Length2 && RowMajorBefore(bb, cc, b, c)
                                              && !a[i, bb, cc].NaN?
      {
        var x := NanAsInf(a[i, b, c]);
        if !a[i, b, c].NaN? {
          found := true;
        }
        if Lt(x, best) {
          best, j, k := x, b, c;
        }
      }
    }
  }

  /** A plane whose cells are all +inf (no usable cut) yields its first
      cell, `(0, 0)`, with +inf sensitivity. */
  lemma AllInfiniteArgminIsFirst(a: array3<Float>, i: nat, j: nat, k: nat)
    requires i < a.Length0 && j < a.Length1 && k < a.Length2
    requires forall b, c :: 0 <= b < a.Length1 && 0 <= c < a.Length2 ==> a[i, b, c].PosInf?
    requires IsNanArgmin(a, i, j, k)
    ensures j == 0 && k == 0 && a[i, j, k].PosInf?
  {
    assert a[i, 0, 0].PosInf?;
  }

  /** `find_best_cuts_sens` stops when `nanargmin` raises for an energy
      bin: its plane of cuts holds no number (it is empty). */
  datatype OptimizerError = NoCutCandidates(energyBin: nat)

  /** Cut `(j, k)` is the one `nanargmin` picks in energy bin `i`: the first
      cell, in row-major order, of least marked sensitivity. */
  predicate IsBestCut(s: Sample, noff: real, solver: ExcessSolver, p: FloorParams, lim: Limits,
                      E: seq<real>, g: seq<real>, t: seq<real>, i: int, j: int, k: int)
    requires ValidSample(s) && noff != 0.0 && ValidFloorParams(p)
    requires 0 <= i < |E| - 1 && 0 <= j < |g| && 0 <= k < |t|
  {
    forall b, c {:trigger MarkedSensitivity(s, noff, solver, p, lim, E[i], E[i + 1], g[b], t[c])} ::
      0 <= b < |g| && 0 <= c < |t| ==>
      && Le(MarkedSensitivity(s, noff, solver, p, lim, E[i], E[i + 1], g[j], t[k]),
            MarkedSensitivity(s, noff, solver, p, lim, E[i], E[i + 1], g[b], t[c]))
      && (RowMajorBefore(b, c, j, k) ==>
            Lt(MarkedSensitivity(s, noff, solver, p, lim, E[i], E[i + 1], g[j], t[k]),
               MarkedSensitivity(s, noff, solver, p, lim, E[i], E[i + 1], g[b], t[c])))
  }

  /** `row` is the result row of energy bin `i`: the row of the best cut on
      the grids `bin_definition(gb, tb)`. */
  ghost predicate ChosenRow(s: Sample, noff: real, solver: ExcessSolver, p: FloorParams, lim: Limits,
                            E: seq<real>, gb: nat, tb: nat, i: int, row: BinResult)
    requires ValidSample(s) && noff != 0.0 && ValidFloorParams(p)
    requires 0 <= i < |E| - 1
  {
    var grids := BinDefinition(gb, tb);
    exists j, k :: 0 <= j < gb && 0 <= k < tb && IsBestCut(s, noff, solver, p, lim, E, grids.0, grids.1, i, j, k)
                   && row == ResultRow(s, noff, solver, p, lim, E[i], E[i + 1], grids.0[j], grids.1[k])
  }

  /** The grids of one optimisation: counts, the `final_hadrons * noff`
      background, the floored excess and the marked sensitivity of every
      cell. */
  method SensitivityGrid(s: Sample, noff: real, solver: ExcessSolver, p: FloorParams, lim: Limits,
                         E: seq<real>, g: seq<real>, t: seq<real>)
    returns (finalGamma: array3<real>, finalHadrons: array3<real>, excess: array3<real>, sens: array3<Float>,
             gammaPerBin: array<real>, hadronPerBin: array<real>)
    requires ValidSample(s) && noff != 0.0 && ValidFloorParams(p) && |E| >= 1
    ensures GridShape(finalGamma, |E| - 1, |g|, |t|) && GridShape(finalHadrons, |E| - 1, |g|, |t|)
    ensures GridShape(excess, |E| - 1, |g|, |t|) && GridShape(sens, |E| - 1, |g|, |t|)
    ensures gammaPerBin.Length == |E| - 1 && hadronPerBin.Length == |E| - 1
    ensures forall a, b, c {:trigger finalGamma[a, b, c]} :: 0 <= a < |E| - 1 && 0 <= b < |g| && 0 <= c < |t| ==>
              finalGamma[a, b, c] == FinalGamma(s, E[a], E[a + 1], g[b], t[c])
    ensures forall a, b, c {:trigger finalHadrons[a, b, c]} :: 0 <= a < |E| - 1 && 0 <= b < |g| && 0 <= c < |t| ==>
              finalHadrons[a, b, c] == FinalHadrons(s, E[a], E[a + 1], g[b], t[c])
    ensures forall a, b, c {:trigger excess[a, b, c]} :: 0 <= a < |E| - 1 && 0 <= b < |g| && 0 <= c < |t| ==>
              excess[a, b, c] == CellExcess(s, noff, solver, p, E[a], E[a + 1], g[b], t[c])
    ensures forall a, b, c {:trigger sens[a, b, c]} :: 0 <= a < |E| - 1 && 0 <= b < |g| && 0 <= c < |t| ==>
              sens[a, b, c] == MarkedSensitivity(s, noff, solver, p, lim, E[a], E[a + 1], g[b], t[c])
    ensures |g| > 0 && |t| > 0 ==>
              forall a :: 0 <= a < |E| - 1 ==>
                gammaPerBin[a] == GammaPerBin(s, E[a], E[a + 1]) && hadronPerBin[a] == HadronPerBin(s, E[a], E[a + 1])
  {
    var n0, n1, n2 := |E| - 1, |g|, |t|;
    var preGamma, preHadrons;
    finalGamma, finalHadrons, preGamma, preHadrons, gammaPerBin, hadronPerBin := FillGrid(s, E, g, t);
    var background := new real[n0, n1, n2]((a, b, c) reads finalHadrons =>
      if 0 <= a < n0 && 0 <= b < n1 && 0 <= c < n2 then finalHadrons[a, b, c] * noff else 0.0);
    excess, sens := CalculateSensitivityLima(finalGamma, background, 1.0 / noff, solver, p);
    forall a, b, c | 0 <= a < n0 && 0 <= b < n1 && 0 <= c < n2
      ensures excess[a, b, c] == CellExcess(s, noff, solver, p, E[a], E[a + 1], g[b], t[c])
    {
      assert excess[a, b, c] == FlooredCell(finalGamma, background, 1.0 / noff, solver, p, a, b, c);
      assert background[a, b, c] == CellBackground(s, noff, E[a], E[a + 1], g[b], t[c]);
    }
    MarkInvalidCells(sens, finalHadrons, preGamma, preHadrons, lim);
  }

  /** Over a plane of marked sensitivities the `nanargmin` cell is the best cut. */
  lemma ArgminIsBestCut(s: Sample, noff: real, solver: ExcessSolver, p: FloorParams, lim: Limits,
                        E: seq<real>, g: seq<real>, t: seq<real>, sens: array3<Float>, i: nat, j: nat, k: nat)
    requires ValidSample(s) && noff != 0.0 && ValidFloorParams(p) && i < |E| - 1 && j < |g| && k < |t|
    requires GridShape(sens, |E| - 1, |g|, |t|)
    requires forall a, b, c {:trigger sens[a, b, c]} :: 0 <= a < |E| - 1 && 0 <= b < |g| && 0 <= c < |t| ==>
               sens[a, b, c] == MarkedSensitivity(s, noff, solver, p, lim, E[a], E[a + 1], g[b], t[c])
    requires IsNanArgmin(sens, i, j, k)
    ensures IsBestCut(s, noff, solver, p, lim, E, g, t, i, j, k)
  {
    var best := MarkedSensitivity(s, noff, solver, p, lim, E[i], E[i + 1], g[j], t[k]);
    assert sens[i, j, k] == best;
    MarkedSensitivityMeaning(s, noff, solver, p, lim, E[i], E[i + 1], g[j], t[k]);
    forall b, c | 0 <= b < |g| && 0 <= c < |t|
      ensures && Le(best, MarkedSensitivity(s, noff, solver, p, lim, E[i], E[i + 1], g[b], t[c]))
              && (RowMajorBefore(b, c, j, k) ==> Lt(best, MarkedSensitivity(s, noff, solver, p, lim, E[i], E[i + 1], g[b], t[c])))
    {
      assert sens[i, b, c] == MarkedSensitivity(s, noff, solver, p, lim, E[i], E[i + 1], g[b], t[c]);
      MarkedSensitivityMeaning(s, noff, solver, p, lim, E[i], E[i + 1], g[b], t[c]);
    }
  }

  /** The result row of energy bin `i`, read off the grids at the cell
      `nanargmin` picks; `found` is false when the bin's plane is empty. */
  method BestCutRow(s: Sample, noff: real, solver: ExcessSolver, p: FloorParams, lim: Limits,
                    E: seq<real>, g: seq<real>, t: seq<real>,
                    finalGamma: array3<real>, finalHadrons: array3<real>, excess: array3<real>, sens: array3<Float>,
                    gammaPerBin: array<real>, hadronPerBin: array<real>, i: nat)
    returns (found: bool, row: BinResult, ghost j: nat, ghost k: nat)
    requires ValidSample(s) && noff != 0.0 && ValidFloorParams(p) && i < |E| - 1
    requires GridShape(finalGamma, |E| - 1, |g|, |t|) && GridShape(finalHadrons, |E| - 1, |g|, |t|)
    requires GridShape(excess, |E| - 1, |g|, |t|) && GridShape(sens, |E| - 1, |g|, |t|)
    requires gammaPerBin.Length == |E| - 1 && hadronPerBin.Length == |E| - 1
    requires forall a, b, c {:trigger finalGamma[a, b, c]} :: 0 <= a < |E| - 1 && 0 <= b < |g| && 0 <= c < |t| ==>
               finalGamma[a, b, c] == FinalGamma(s, E[a], E[a + 1], g[b], t[c])
    requires forall a, b, c {:trigger finalHadrons[a, b, c]} :: 0 <= a < |E| - 1 && 0 <= b < |g| && 0 <= c < |t| ==>
               finalHadrons[a, b, c] == FinalHadrons(s, E[a], E[a + 1], g[b], t[c])
    requires forall a, b, c {:trigger excess[a, b, c]} :: 0 <= a < |E| - 1 && 0 <= b < |g| && 0 <= c < |t| ==>
               excess[a, b, c] == CellExcess(s, noff, solver, p, E[a], E[a + 1], g[b], t[c])
    requires forall a, b, c {:trigger sens[a, b, c]} :: 0 <= a < |E| - 1 && 0 <= b < |g| && 0 <= c < |t| ==>
               sens[a, b, c] == MarkedSensitivity(s, noff, solver, p, lim, E[a], E[a + 1], g[b], t[c])
    requires |g| > 0 && |t| > 0 ==>
               gammaPerBin[i] == GammaPerBin(s, E[i], E[i + 1]) && hadronPerBin[i] == HadronPerBin(s, E[i], E[i + 1])
    ensures found <==> |g| > 0 && |t| > 0
    ensures found ==> j < |g| && k < |t| && IsBestCut(s, noff, solver, p, lim, E, g, t, i, j, k)
                      && row == ResultRow(s, noff, solver, p, lim, E[i], E[i + 1], g[j], t[k])
  {
    if |g| > 0 && |t| > 0 {
      MarkedSensitivityMeaning(s, noff, solver, p, lim, E[i], E[i + 1], g[0], t[0]);
      assert !sens[i, 0, 0].NaN?;
    }
    var b, c;
    found, b, c := NanArgmin(sens, i);
    j, k := b, c;
    row := BinResult(0.0, 0.0, 0.0, 0.0, NaN, NaN, 0.0, NaN, NaN, NaN, 0, 0);
    if !found {
      return;
    }
    row := BinResult(
      g[b], t[c], finalGamma[i, b, c], finalHadrons[i, b, c],
      Div(finalGamma[i, b, c], s.obstime / 60.0), Div(finalHadrons[i, b, c], s.obstime / 60.0),
      excess[i, b, c], sens[i, b, c],
      Div(finalGamma[i, b, c], gammaPerBin[i]), Div(finalHadrons[i, b, c], hadronPerBin[i]),
      Count(s.gammas, Full(True, E[i], E[i + 1], g[b], ThetaBelow(t[c]))),
      Count(s.protons, Full(True, E[i], E[i + 1], g[b], InRing(s.ring))));
    ArgminIsBestCut(s, noff, solver, p, lim, E, g, t, sens, i, b, c);
    assert finalGamma[i, b, c] == FinalGamma(s, E[i], E[i + 1], g[b], t[c]);
    assert finalHadrons[i, b, c] == FinalHadrons(s, E[i], E[i + 1], g[b], t[c]);
    assert excess[i, b, c] == CellExcess(s, noff, solver, p, E[i], E[i + 1], g[b], t[c]);
  }

  /** The optimisation of `find_best_cuts_sens` on the energy edges `E`,
      `gb` gammaness cuts and `tb` theta2 cuts: one result row per energy
      bin, each for the best cut of its bin. It fails exactly when there
      is an energy bin but the cut grid is empty. */
  method FindBestCutsSensitivity(s: Sample, noff: real, solver: ExcessSolver, p: FloorParams, lim: Limits,
                                 E: seq<real>, gb: nat, tb: nat)
    returns (r: Result<seq<BinResult>, OptimizerError>)
    requires ValidSample(s) && noff != 0.0 && ValidFloorParams(p) && |E| >= 1
    ensures r.Success? <==> |E| == 1 || (gb > 0 && tb > 0)
    ensures r.Failure? ==> r.error == NoCutCandidates(0)
    ensures r.Success? ==> |r.value| == |E| - 1
    ensures r.Success? ==> forall i :: 0 <= i < |E| - 1 ==> ChosenRow(s, noff, solver, p, lim, E, gb, tb, i, r.value[i])
  {
    var grids := BinDefinition(gb, tb);
    var g, t := grids.0, grids.1;
    var finalGamma, finalHadrons, excess, sens, gammaPerBin, hadronPerBin := SensitivityGrid(s, noff, solver, p, lim, E, g, t);
    var rows: seq<BinResult> := [];
    for i := 0 to |E| - 1
      invariant |rows| == i
      invariant i > 0 ==> gb > 0 && tb > 0
      invariant forall a :: 0 <= a < i ==> ChosenRow(s, noff, solver, p, lim, E, gb, tb, a, rows[a])
      modifies {}
    {
      var found, row, j, k := BestCutRow(s, noff, solver, p, lim, E, g, t, finalGamma, finalHadrons, excess, sens,
                                         gammaPerBin, hadronPerBin, i);
      if !found {
        return Failure(NoCutCandidates(i));
      }
      assert ChosenRow(s, noff, solver, p, lim, E, gb, tb, i, row) by {
        assert 0 <= j < gb && 0 <= k < tb && IsBestCut(s, noff, solver, p, lim, E, g, t, i, j, k);
      }
      rows := rows + [row];
    }
    return Success(rows);
  }
}
