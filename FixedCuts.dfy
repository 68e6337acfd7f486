/** `sensitivity`: the sensitivity per energy bin for given per-bin cuts
    `gcut[i]` (gammaness) and `tcut[i]` (theta2). The counting loop, the
    per-bin Li & Ma calculation, the invalid-marking loop and the result
    rows follow the grid optimiser with the cut of bin `i` fixed; the
    table of surviving events is built bin by bin. */
module FixedCuts {
  import opened Numeric
  import opened RingContainment
  import opened EventSelection
  import opened Significance
  import opened CutQuantities

  /** The counting loop over energy bins with the cuts of each bin. */
  method FillBins(s: Sample, E: seq<real>, gcut: seq<real>, tcut: seq<real>)
    returns (finalGamma: array<real>, finalHadrons: array<real>, preGamma: array<nat>, preHadrons: array<nat>,
             gammaPerBin: array<real>, hadronPerBin: array<real>)
    requires ValidSample(s) && |E| >= 1 && |gcut| == |E| - 1 && |tcut| == |E| - 1
    ensures fresh(finalGamma) && fresh(finalHadrons) && fresh(preGamma) && fresh(preHadrons)
    ensures fresh(gammaPerBin) && fresh(hadronPerBin)
    ensures finalGamma.Length == |E| - 1 && finalHadrons.Length == |E| - 1
    ensures preGamma.Length == |E| - 1 && preHadrons.Length == |E| - 1
    ensures gammaPerBin.Length == |E| - 1 && hadronPerBin.Length == |E| - 1
    ensures forall i {:trigger finalGamma[i]} :: 0 <= i < |E| - 1 ==>
              finalGamma[i] == FinalGamma(s, E[i], E[i + 1], gcut[i], tcut[i])
    ensures forall i {:trigger finalHadrons[i]} :: 0 <= i < |E| - 1 ==>
              finalHadrons[i] == FinalHadrons(s, E[i], E[i + 1], gcut[i], tcut[i])
    ensures forall i {:trigger preGamma[i]} :: 0 <= i < |E| - 1 ==>
              preGamma[i] == PreGamma(s, E[i], E[i + 1], gcut[i], tcut[i])
    ensures forall i {:trigger preHadrons[i]} :: 0 <= i < |E| - 1 ==>
              preHadrons[i] == PreHadrons(s, E[i], E[i + 1], gcut[i])
    ensures forall i {:trigger gammaPerBin[i]} :: 0 <= i < |E| - 1 ==> gammaPerBin[i] == GammaPerBin(s, E[i], E[i + 1])
    ensures forall i {:trigger hadronPerBin[i]} :: 0 <= i < |E| - 1 ==> hadronPerBin[i] == HadronPerBin(s, E[i], E[i + 1])
  {
    var n := |E| - 1;
    finalGamma := new real[n];
    finalHadrons := new real[n];
    preGamma := new nat[n];
    preHadrons := new nat[n];
    gammaPerBin := new real[n];
    hadronPerBin := new real[n];
    for i := 0 to n
      invariant forall a {:trigger finalGamma[a]} :: 0 <= a < i ==> finalGamma[a] == FinalGamma(s, E[a], E[a + 1], gcut[a], tcut[a])
      invariant forall a {:trigger finalHadrons[a]} :: 0 <= a < i ==> finalHadrons[a] == FinalHadrons(s, E[a], E[a + 1], gcut[a], tcut[a])
      invariant forall a {:trigger preGamma[a]} :: 0 <= a < i ==> preGamma[a] == PreGamma(s, E[a], E[a + 1], gcut[a], tcut[a])
      invariant forall a {:trigger preHadrons[a]} :: 0 <= a < i ==> preHadrons[a] == PreHadrons(s, E[a], E[a + 1], gcut[a])
      invariant forall a {:trigger gammaPerBin[a]} :: 0 <= a < i ==> gammaPerBin[a] == GammaPerBin(s, E[a], E[a + 1])
      invariant forall a {:trigger hadronPerBin[a]} :: 0 <= a < i ==> hadronPerBin[a] == HadronPerBin(s, E[a], E[a + 1])
    {
      FillBin(s, E, gcut, tcut, i, finalGamma, finalHadrons, preGamma, preHadrons, gammaPerBin, hadronPerBin);
    }
  }

  /** One pass of the counting loop: the counts of bin `i`. */
  method FillBin(s: Sample, E: seq<real>, gcut: seq<real>, tcut: seq<real>, i: nat,
                 finalGamma: array<real>, finalHadrons: array<real>, preGamma: array<nat>, preHadrons: array<nat>,
                 gammaPerBin: array<real>, hadronPerBin: array<real>)
    modifies finalGamma, finalHadrons, preGamma, preHadrons, gammaPerBin, hadronPerBin
    requires ValidSample(s) && i < |E| - 1 && |gcut| == |E| - 1 && |tcut| == |E| - 1
    requires finalGamma.Length == |E| - 1 && finalHadrons.Length == |E| - 1
    requires preGamma.Length == |E| - 1 && preHadrons.Length == |E| - 1
    requires gammaPerBin.Length == |E| - 1 && hadronPerBin.Length == |E| - 1
    requires finalGamma != finalHadrons && finalGamma != gammaPerBin && finalGamma != hadronPerBin
    requires finalHadrons != gammaPerBin && finalHadrons != hadronPerBin && gammaPerBin != hadronPerBin
    requires preGamma != preHadrons
    ensures forall a {:trigger finalGamma[a]} :: 0 <= a < |E| - 1 ==>
              finalGamma[a] == if a == i then FinalGamma(s, E[i], E[i + 1], gcut[i], tcut[i]) else old(finalGamma[a])
    ensures forall a {:trigger finalHadrons[a]} :: 0 <= a < |E| - 1 ==>
              finalHadrons[a] == if a == i then FinalHadrons(s, E[i], E[i + 1], gcut[i], tcut[i]) else old(finalHadrons[a])
    ensures forall a {:trigger preGamma[a]} :: 0 <= a < |E| - 1 ==>
              preGamma[a] == if a == i then PreGamma(s, E[i], E[i + 1], gcut[i], tcut[i]) else old(preGamma[a])
    ensures forall a {:trigger preHadrons[a]} :: 0 <= a < |E| - 1 ==>
              preHadrons[a] == if a == i then PreHadrons(s, E[i], E[i + 1], gcut[i]) else old(preHadrons[a])
    ensures forall a {:trigger gammaPerBin[a]} :: 0 <= a < |E| - 1 ==>
              gammaPerBin[a] == if a == i then GammaPerBin(s, E[i], E[i + 1]) else old(gammaPerBin[a])
    ensures forall a {:trigger hadronPerBin[a]} :: 0 <= a < |E| - 1 ==>
              hadronPerBin[a] == if a == i then HadronPerBin(s, E[i], E[i + 1]) else old(hadronPerBin[a])
  {
    finalGamma[i] := FinalGamma(s, E[i], E[i + 1], gcut[i], tcut[i]);
    finalHadrons[i] := FinalHadrons(s, E[i], E[i + 1], gcut[i], tcut[i]);
    preGamma[i] := PreGamma(s, E[i], E[i + 1], gcut[i], tcut[i]);
    preHadrons[i] := PreHadrons(s, E[i], E[i + 1], gcut[i]);
    gammaPerBin[i] := GammaPerBin(s, E[i], E[i + 1]);
    hadronPerBin[i] := HadronPerBin(s, E[i], E[i + 1]);
  }

  /** The invalid-marking loop: a bin whose sensitivity is not a positive
      number, or that has too little background or too few raw events,
      is set to +inf. */
  method MarkInvalidBins(sens: array<Float>, finalHadrons: array<real>, preGamma: array<nat>, preHadrons: array<nat>,
                         lim: Limits)
    modifies sens
    requires finalHadrons.Length == sens.Length && preGamma.Length == sens.Length && preHadrons.Length == sens.Length
    ensures forall i :: 0 <= i < sens.Length ==>
              sens[i] == MarkCell(old(sens[i]), finalHadrons[i], preGamma[i], preHadrons[i], lim.minNumEvents, lim.minPreEvents)
  {
    for i := 0 to sens.Length
      invariant forall a :: 0 <= a < i ==>
                  sens[a] == MarkCell(old(sens[a]), finalHadrons[a], preGamma[a], preHadrons[a], lim.minNumEvents, lim.minPreEvents)
      invariant forall a :: i <= a < sens.Length ==> sens[a] == old(sens[a])
    {
      if Rejected(sens[i], finalHadrons[i], preGamma[i], preHadrons[i], lim.minNumEvents, lim.minPreEvents) {
        sens[i] := PosInf;
      }
    }
  }

  /** The sensitivity of every energy bin with its own cuts: row `i` is the
      result row of cut `(gcut[i], tcut[i])` in bin `(E[i], E[i+1])`. */
  method FixedCutSensitivity(s: Sample, noff: real, solver: ExcessSolver, p: FloorParams, lim: Limits,
                             E: seq<real>, gcut: seq<real>, tcut: seq<real>)
    returns (rows: seq<BinResult>)
    requires ValidSample(s) && noff != 0.0 && ValidFloorParams(p)
    requires |E| >= 1 && |gcut| == |E| - 1 && |tcut| == |E| - 1
    ensures |rows| == |E| - 1
    ensures forall i :: 0 <= i < |E| - 1 ==> rows[i] == ResultRow(s, noff, solver, p, lim, E[i], E[i + 1], gcut[i], tcut[i])
  {
    var n := |E| - 1;
    var finalGamma, finalHadrons, preGamma, preHadrons, gammaPerBin, hadronPerBin := FillBins(s, E, gcut, tcut);
    var background := new real[n](i reads finalHadrons => if 0 <= i < n then finalHadrons[i] * noff else 0.0);
    var alpha := new real[n](_ => 1.0 / noff);
    var excess, sens := CalculateSensitivityLimaEbin(finalGamma, background, alpha, solver, p);
    forall i | 0 <= i < n
      ensures excess[i] == CellExcess(s, noff, solver, p, E[i], E[i + 1], gcut[i], tcut[i])
    {
      assert background[i] == CellBackground(s, noff, E[i], E[i + 1], gcut[i], tcut[i]);
    }
    MarkInvalidBins(sens, finalHadrons, preGamma, preHadrons, lim);
    rows := CollectRows(s, noff, solver, p, lim, E, gcut, tcut, finalGamma, finalHadrons, excess, sens,
                        gammaPerBin, hadronPerBin);
  }

  /** The loop that gathers the reported quantities of every bin. */
  method CollectRows(s: Sample, noff: real, solver: ExcessSolver, p: FloorParams, lim: Limits,
                     E: seq<real>, gcut: seq<real>, tcut: seq<real>,
                     finalGamma: array<real>, finalHadrons: array<real>, excess: array<real>, sens: array<Float>,
                     gammaPerBin: array<real>, hadronPerBin: array<real>)
    returns (rows: seq<BinResult>)
    requires ValidSample(s) && noff != 0.0 && ValidFloorParams(p)
    requires |E| >= 1 && |gcut| == |E| - 1 && |tcut| == |E| - 1
    requires finalGamma.Length == |E| - 1 && finalHadrons.Length == |E| - 1
    requires excess.Length == |E| - 1 && sens.Length == |E| - 1
    requires gammaPerBin.Length == |E| - 1 && hadronPerBin.Length == |E| - 1
    requires forall i {:trigger finalGamma[i]} :: 0 <= i < |E| - 1 ==>
               finalGamma[i] == FinalGamma(s, E[i], E[i + 1], gcut[i], tcut[i])
    requires forall i {:trigger finalHadrons[i]} :: 0 <= i < |E| - 1 ==>
               finalHadrons[i] == FinalHadrons(s, E[i], E[i + 1], gcut[i], tcut[i])
    requires forall i {:trigger excess[i]} :: 0 <= i < |E| - 1 ==>
               excess[i] == CellExcess(s, noff, solver, p, E[i], E[i + 1], gcut[i], tcut[i])
    requires forall i {:trigger sens[i]} :: 0 <= i < |E| - 1 ==>
               sens[i] == MarkedSensitivity(s, noff, solver, p, lim, E[i], E[i + 1], gcut[i], tcut[i])
    requires forall i {:trigger gammaPerBin[i]} :: 0 <= i < |E| - 1 ==> gammaPerBin[i] == GammaPerBin(s, E[i], E[i + 1])
    requires forall i {:trigger hadronPerBin[i]} :: 0 <= i < |E| - 1 ==> hadronPerBin[i] == HadronPerBin(s, E[i], E[i + 1])
    ensures |rows| == |E| - 1
    ensures forall i :: 0 <= i < |E| - 1 ==> rows[i] == ResultRow(s, noff, solver, p, lim, E[i], E[i + 1], gcut[i], tcut[i])
  {
    rows := [];
    for i := 0 to |E| - 1
      invariant |rows| == i
      invariant forall a :: 0 <= a < i ==> rows[a] == ResultRow(s, noff, solver, p, lim, E[a], E[a + 1], gcut[a], tcut[a])
    {
      var row := BinResult(
        gcut[i], tcut[i], finalGamma[i], finalHadrons[i],
        Div(finalGamma[i], s.obstime / 60.0), Div(finalHadrons[i], s.obstime / 60.0),
        excess[i], sens[i],
        Div(finalGamma[i], gammaPerBin[i]), Div(finalHadrons[i], hadronPerBin[i]),
        Count(s.gammas, Full(True, E[i], E[i + 1], gcut[i], ThetaBelow(tcut[i]))),
        Count(s.protons, Full(True, E[i], E[i + 1], gcut[i], InRing(s.ring))));
      rows := rows + [row];
    }
  }

  /** The survivor mask of bin `i`: true energy strictly inside the bin,
      gammaness above `gcut[i]` and the event table's theta2 column below
      `tcut[i]`, applied alike to gammas and protons. The column holds
      `scale` times the deg^2 theta2 of the counting loops: the source
      stores it in rad^2, so there `scale` is `(pi / 180)^2`, while the
      cuts are in deg^2; `scale == 1` compares like units. */
  function SurvivorCut(E: seq<real>, gcut: seq<real>, tcut: seq<real>, scale: real, i: nat): Cut
    requires i < |E| - 1 && |gcut| == |E| - 1 && |tcut| == |E| - 1
  {
    Full(True, E[i], E[i + 1], gcut[i], ScaledThetaBelow(scale, tcut[i]))
  }

  /** The rows of the event table that survive the cuts of the first `n`
      bins: bin after bin, and within a bin in table order. Rows are named
      by their position in the table `events`. */
  function Survivors(events: seq<Event>, E: seq<real>, gcut: seq<real>, tcut: seq<real>, scale: real, n: nat): seq<nat>
    requires n <= |E| - 1 && |gcut| == |E| - 1 && |tcut| == |E| - 1
  {
    if n == 0 then [] else Survivors(events, E, gcut, tcut, scale, n - 1) + Members(events, SurvivorCut(E, gcut, tcut, scale, n - 1))
  }

  /** The loop that builds the table of surviving events from the gamma
      table followed by the proton table. */
  method SelectSurvivors(gammas: seq<Event>, protons: seq<Event>, E: seq<real>, gcut: seq<real>, tcut: seq<real>,
                         scale: real)
    returns (dl2: seq<nat>)
    requires |E| >= 1 && |gcut| == |E| - 1 && |tcut| == |E| - 1
    ensures dl2 == Survivors(gammas + protons, E, gcut, tcut, scale, |E| - 1)
  {
    var events := gammas + protons;
    dl2 := [];
    for i := 0 to |E| - 1
      invariant dl2 == Survivors(events, E, gcut, tcut, scale, i)
    {
      dl2 := dl2 + Members(events, SurvivorCut(E, gcut, tcut, scale, i));
    }
  }

  /** The event passes the cuts of one of the first `n` bins. */
  predicate PassesSomeBin(ev: Event, E: seq<real>, gcut: seq<real>, tcut: seq<real>, scale: real, n: nat)
    requires n <= |E| - 1 && |gcut| == |E| - 1 && |tcut| == |E| - 1
  {
    exists i :: 0 <= i < n && Selected(ev, SurvivorCut(E, gcut, tcut, scale, i))
  }

  /** A row survives exactly when its event passes the cuts of some bin. */
  lemma {:induction false} SurvivorsSpec(events: seq<Event>, E: seq<real>, gcut: seq<real>, tcut: seq<real>, scale: real, n: nat, p: int)
    requires n <= |E| - 1 && |gcut| == |E| - 1 && |tcut| == |E| - 1
    ensures p in Survivors(events, E, gcut, tcut, scale, n) <==> 0 <= p < |events| && PassesSomeBin(events[p], E, gcut, tcut, scale, n)
  {
    if n > 0 {
      var c := SurvivorCut(E, gcut, tcut, scale, n - 1);
      SurvivorsSpec(events, E, gcut, tcut, scale, n - 1, p);
      MembersSpec(events, c);
      if 0 <= p < |events| {
        if PassesSomeBin(events[p], E, gcut, tcut, scale, n) && !Selected(events[p], c) {
          var i :| 0 <= i < n && Selected(events[p], SurvivorCut(E, gcut, tcut, scale, i));
          assert i < n - 1;
          assert PassesSomeBin(events[p], E, gcut, tcut, scale, n - 1);
        }
        if PassesSomeBin(events[p], E, gcut, tcut, scale, n - 1) {
          var i :| 0 <= i < n - 1 && Selected(events[p], SurvivorCut(E, gcut, tcut, scale, i));
          assert PassesSomeBin(events[p], E, gcut, tcut, scale, n);
        }
        if Selected(events[p], c) {
          assert PassesSomeBin(events[p], E, gcut, tcut, scale, n);
        }
      }
    }
  }

  predicate NoRepeats(d: seq<nat>)
  {
    forall a, b :: 0 <= a < b < |d| ==> d[a] != d[b]
  }

  /** With strictly increasing edges the bins are disjoint, so no row
      appears twice in the table. */
  lemma {:induction false} SurvivorsDistinct(events: seq<Event>, E: seq<real>, gcut: seq<real>, tcut: seq<real>, scale: real, n: nat)
    requires n <= |E| - 1 && |gcut| == |E| - 1 && |tcut| == |E| - 1
    requires StrictlyIncreasing(E)
    ensures NoRepeats(Survivors(events, E, gcut, tcut, scale, n))
  {
    if n > 0 {
      SurvivorsDistinct(events, E, gcut, tcut, scale, n - 1);
      var front := Survivors(events, E, gcut, tcut, scale, n - 1);
      var last := Members(events, SurvivorCut(E, gcut, tcut, scale, n - 1));
      MembersSpec(events, SurvivorCut(E, gcut, tcut, scale, n - 1));
      var d := front + last;
      assert NoRepeats(front);
      forall a, b | 0 <= a < b < |d|
        ensures d[a] != d[b]
      {
        if b < |front| {
          assert d[a] == front[a] && d[b] == front[b];
        } else if a >= |front| {
          assert d[a] == last[a - |front|] && d[b] == last[b - |front|];
        } else {
          var q := d[a];
          assert q == front[a];
          SurvivorsSpec(events, E, gcut, tcut, scale, n - 1, q);
          var i :| 0 <= i < n - 1 && Selected(events[q], SurvivorCut(E, gcut, tcut, scale, i));
          assert E[i + 1] <= E[n - 1];
          assert !Selected(events[q], SurvivorCut(E, gcut, tcut, scale, n - 1));
          assert d[b] == last[b - |front|];
          assert d[b] in last;
          assert Selected(events[d[b]], SurvivorCut(E, gcut, tcut, scale, n - 1));
        }
      }
    }
  }

  /** In like units (`scale == 1`) a row survives exactly when its event
      passes, for some bin `i`, `E[i] < e_true < E[i+1]`, gammaness above
      `gcut[i]` and deg^2 theta2 below `tcut[i]`: the cuts the counting
      loops applied to that bin. */
  lemma CorrectedSurvivorsSpec(events: seq<Event>, E: seq<real>, gcut: seq<real>, tcut: seq<real>, n: nat, p: int)
    requires n <= |E| - 1 && |gcut| == |E| - 1 && |tcut| == |E| - 1
    ensures p in Survivors(events, E, gcut, tcut, 1.0, n) <==>
            0 <= p < |events| &&
            exists i :: 0 <= i < n && Selected(events[p], Full(True, E[i], E[i + 1], gcut[i], ThetaBelow(tcut[i])))
  {
    SurvivorsSpec(events, E, gcut, tcut, 1.0, n, p);
    if 0 <= p < |events| {
      forall i | 0 <= i < n
        ensures Selected(events[p], SurvivorCut(E, gcut, tcut, 1.0, i))
            <==> Selected(events[p], Full(True, E[i], E[i + 1], gcut[i], ThetaBelow(tcut[i])))
      {
        assert events[p].theta2 * 1.0 == events[p].theta2;
      }
    }
  }

  /** The source filters its rad^2 theta2 column with deg^2 cuts. For any
      scale below one half (`(pi / 180)^2` is about 0.0003), a single event
      at 0.1 deg^2, twice its bin's 0.05 deg^2 cut, survives as written and
      is dropped in like units. */
  lemma SurvivorUnitMismatch(scale: real)
    requires 0.0 < scale < 0.5
    ensures var ev := Event(50.0, 50.0, 0.9, 0.1, 1.0);
            && 0 in Survivors([ev], [10.0, 100.0], [0.5], [0.05], scale, 1)
            && 0 !in Survivors([ev], [10.0, 100.0], [0.5], [0.05], 1.0, 1)
  {
    var ev := Event(50.0, 50.0, 0.9, 0.1, 1.0);
    SurvivorsSpec([ev], [10.0, 100.0], [0.5], [0.05], scale, 1, 0);
    SurvivorsSpec([ev], [10.0, 100.0], [0.5], [0.05], 1.0, 1, 0);
    assert Selected(ev, SurvivorCut([10.0, 100.0], [0.5], [0.05], scale, 0));
    assert !Selected(ev, SurvivorCut([10.0, 100.0], [0.5], [0.05], 1.0, 0));
  }
}
