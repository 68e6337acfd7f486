/** Event tables and the boolean-mask selections of the counting loops:
    an event passes a cut when its energy lies strictly inside an energy
    bin and, for a full cut, its gammaness is above the gammaness cut and
    it lies in the signal region (theta2 below a cut) or in the background
    ring. Counts (`.shape[0]` of a mask) and weighted sums (`np.sum` of a
    mask) are recursive functions over the table. */
module EventSelection {
  import opened Numeric
  import opened RingContainment

  /** One reconstructed shower: reconstructed and true energy (GeV),
      gammaness, squared angular distance (deg^2) and its rate weight. */
  datatype Event = Event(eReco: real, eTrue: real, gammaness: real, theta2: real, weight: real)

  datatype EnergyKind = Reconstructed | True

  /** Where an event must lie: inside the theta2 cut of the signal region,
      or inside the background ring. `ScaledThetaBelow(scale, cut)` compares
      `theta2 * scale` with the cut: a theta2 column that holds the value in
      other units, `scale` times the deg^2 figure. */
  datatype Region = ThetaBelow(cut: real) | ScaledThetaBelow(scale: real, cut: real) | InRing(ring: Ring)

  /** A selection mask: the open energy interval `(lo, hi)` on the chosen
      energy, alone or together with a gammaness cut and a region. */
  datatype Cut =
    | EnergyOnly(kind: EnergyKind, lo: real, hi: real)
    | Full(kind: EnergyKind, lo: real, hi: real, gammanessCut: real, region: Region)

  function Energy(ev: Event, kind: EnergyKind): real
  {
    match kind
    case Reconstructed => ev.eReco
    case True => ev.eTrue
  }

  predicate InRegion(ev: Event, region: Region)
  {
    match region
    case ThetaBelow(t) => ev.theta2 < t
    case ScaledThetaBelow(k, t) => ev.theta2 * k < t
    case InRing(ring) => Contained(ring, ev.theta2)
  }

  /** The mask of one cut: strict comparisons everywhere, as in the source. */
  predicate Selected(ev: Event, c: Cut)
  {
    && c.lo < Energy(ev, c.kind) < c.hi
    && (c.Full? ==> ev.gammaness > c.gammanessCut && InRegion(ev, c.region))
  }

  /** The gamma cut of a cell: `E[i] < e_reco < E[i+1]`, `gammaness > g` and `theta2 < t`. */
  function GammaCut(lo: real, hi: real, g: real, t: real): Cut
  {
    Full(Reconstructed, lo, hi, g, ThetaBelow(t))
  }

  /** The proton cut of a cell: `E[i] < e_reco < E[i+1]`, `gammaness > g` and inside the ring. */
  function ProtonCut(lo: real, hi: real, g: real, ring: Ring): Cut
  {
    Full(Reconstructed, lo, hi, g, InRing(ring))
  }

  /** The whole-bin mask `E[i] < e_reco < E[i+1]`. */
  function BinCut(lo: real, hi: real): Cut
  {
    EnergyOnly(Reconstructed, lo, hi)
  }

  /** The number of events a mask keeps. */
  function Count(evs: seq<Event>, c: Cut): (n: nat)
    ensures n <= |evs|
  {
    if |evs| == 0 then 0
    else Count(evs[..|evs| - 1], c) + (if Selected(evs[|evs| - 1], c) then 1 else 0)
  }

  /** The sum of the weights of the events a mask keeps. */
  function WeightSum(evs: seq<Event>, c: Cut): real
  {
    if |evs| == 0 then 0.0
    else WeightSum(evs[..|evs| - 1], c) + (if Selected(evs[|evs| - 1], c) then evs[|evs| - 1].weight else 0.0)
  }

  /** The positions of the events a mask keeps, in table order. */
  function Members(evs: seq<Event>, c: Cut): seq<nat>
  {
    if |evs| == 0 then []
    else Members(evs[..|evs| - 1], c) + (if Selected(evs[|evs| - 1], c) then [|evs| - 1] else [])
  }

  predicate NonNegativeWeights(evs: seq<Event>)
  {
    forall i :: 0 <= i < |evs| ==> evs[i].weight >= 0.0
  }

  predicate Ascending(s: seq<nat>)
  {
    forall a, b :: 0 <= a < b < |s| ==> s[a] < s[b]
  }

  /** The positions kept are exactly those whose event passes the mask, in
      ascending order, and there are `Count` of them. */
  lemma {:induction false} MembersSpec(evs: seq<Event>, c: Cut)
    ensures var m := Members(evs, c);
            && |m| == Count(evs, c)
            && Ascending(m)
            && (forall p :: p in m <==> 0 <= p < |evs| && Selected(evs[p], c))
  {
    if |evs| > 0 {
      var init := evs[..|evs| - 1];
      MembersSpec(init, c);
      var m0 := Members(init, c);
      var m := Members(evs, c);
      assert forall x :: x in m0 ==> x < |evs| - 1;
      forall p
        ensures p in m <==> 0 <= p < |evs| && Selected(evs[p], c)
      {
        if 0 <= p < |evs| - 1 {
          assert evs[p] == init[p];
        }
      }
      forall a, b | 0 <= a < b < |m|
        ensures m[a] < m[b]
      {
        if b >= |m0| {
          assert m[a] in m0;
        }
      }
    }
  }

  /** A mask that keeps at least what another keeps counts at least as much. */
  lemma {:induction false} CountImplied(evs: seq<Event>, c1: Cut, c2: Cut)
    requires forall i :: 0 <= i < |evs| ==> Selected(evs[i], c1) ==> Selected(evs[i], c2)
    ensures Count(evs, c1) <= Count(evs, c2)
  {
    if |evs| > 0 {
      var init := evs[..|evs| - 1];
      assert forall i :: 0 <= i < |init| ==> init[i] == evs[i];
      CountImplied(init, c1, c2);
    }
  }

  /** With non-negative weights, such a mask also has at least the weight. */
  lemma {:induction false} WeightSumImplied(evs: seq<Event>, c1: Cut, c2: Cut)
    requires NonNegativeWeights(evs)
    requires forall i :: 0 <= i < |evs| ==> Selected(evs[i], c1) ==> Selected(evs[i], c2)
    ensures WeightSum(evs, c1) <= WeightSum(evs, c2)
  {
    if |evs| > 0 {
      var init := evs[..|evs| - 1];
      assert forall i :: 0 <= i < |init| ==> init[i] == evs[i];
      WeightSumImplied(init, c1, c2);
    }
  }

  lemma {:induction false} WeightSumNonNegative(evs: seq<Event>, c: Cut)
    requires NonNegativeWeights(evs)
    ensures WeightSum(evs, c) >= 0.0
  {
    if |evs| > 0 {
      var init := evs[..|evs| - 1];
      assert forall i :: 0 <= i < |init| ==> init[i] == evs[i];
      WeightSumNonNegative(init, c);
    }
  }

  /** Raising the gammaness cut or tightening the theta2 cut never keeps
      more gammas: the raw count and (with non-negative weights) the
      weighted sum are non-increasing in the gammaness cut and
      non-decreasing in the theta2 cut. */
  lemma GammaCutMonotone(evs: seq<Event>, lo: real, hi: real, g1: real, g2: real, t1: real, t2: real)
    requires g1 <= g2 && t1 <= t2
    ensures Count(evs, GammaCut(lo, hi, g2, t1)) <= Count(evs, GammaCut(lo, hi, g1, t2))
    ensures NonNegativeWeights(evs) ==>
              WeightSum(evs, GammaCut(lo, hi, g2, t1)) <= WeightSum(evs, GammaCut(lo, hi, g1, t2))
  {
    CountImplied(evs, GammaCut(lo, hi, g2, t1), GammaCut(lo, hi, g1, t2));
    if NonNegativeWeights(evs) {
      WeightSumImplied(evs, GammaCut(lo, hi, g2, t1), GammaCut(lo, hi, g1, t2));
    }
  }

  /** Raising the gammaness cut never keeps more protons in the ring. */
  lemma ProtonCutMonotone(evs: seq<Event>, lo: real, hi: real, g1: real, g2: real, ring: Ring)
    requires g1 <= g2
    ensures Count(evs, ProtonCut(lo, hi, g2, ring)) <= Count(evs, ProtonCut(lo, hi, g1, ring))
    ensures NonNegativeWeights(evs) ==>
              WeightSum(evs, ProtonCut(lo, hi, g2, ring)) <= WeightSum(evs, ProtonCut(lo, hi, g1, ring))
  {
    CountImplied(evs, ProtonCut(lo, hi, g2, ring), ProtonCut(lo, hi, g1, ring));
    if NonNegativeWeights(evs) {
      WeightSumImplied(evs, ProtonCut(lo, hi, g2, ring), ProtonCut(lo, hi, g1, ring));
    }
  }

  /** A full cut keeps a sub-population of its energy bin: its count and
      (with non-negative weights) its weighted sum are between zero and the
      whole bin's. */
  lemma CutWithinBin(evs: seq<Event>, kind: EnergyKind, lo: real, hi: real, g: real, region: Region)
    ensures Count(evs, Full(kind, lo, hi, g, region)) <= Count(evs, EnergyOnly(kind, lo, hi))
    ensures NonNegativeWeights(evs) ==>
              0.0 <= WeightSum(evs, Full(kind, lo, hi, g, region)) <= WeightSum(evs, EnergyOnly(kind, lo, hi))
  {
    CountImplied(evs, Full(kind, lo, hi, g, region), EnergyOnly(kind, lo, hi));
    if NonNegativeWeights(evs) {
      WeightSumNonNegative(evs, Full(kind, lo, hi, g, region));
      WeightSumImplied(evs, Full(kind, lo, hi, g, region), EnergyOnly(kind, lo, hi));
    }
  }

  /** The gamma efficiency `final_gamma / ngamma_per_ebin` of a cell lies in
      `[0, 1]` when the bin has positive weight (the observation time cancels). */
  lemma GammaEfficiencyInUnitInterval(evs: seq<Event>, lo: real, hi: real, g: real, t: real, obstime: real)
    requires NonNegativeWeights(evs) && obstime > 0.0
    requires WeightSum(evs, BinCut(lo, hi)) > 0.0
    ensures Efficiency(WeightSum(evs, GammaCut(lo, hi, g, t)), WeightSum(evs, BinCut(lo, hi)), obstime).Finite?
    ensures 0.0 <= Efficiency(WeightSum(evs, GammaCut(lo, hi, g, t)), WeightSum(evs, BinCut(lo, hi)), obstime).v <= 1.0
  {
    CutWithinBin(evs, Reconstructed, lo, hi, g, ThetaBelow(t));
    var s := WeightSum(evs, GammaCut(lo, hi, g, t));
    var b := WeightSum(evs, BinCut(lo, hi));
    assert 0.0 <= s <= b;
    ScaledFraction(s, b, obstime);
  }

  /** The efficiency `(final * obstime) / (per_bin * obstime)` of a cell. */
  function Efficiency(final: real, perBin: real, obstime: real): Float
  {
    Div(final * obstime, perBin * obstime)
  }

  lemma ScaledFraction(s: real, b: real, k: real)
    requires 0.0 <= s <= b && b > 0.0 && k > 0.0
    ensures Efficiency(s, b, k).Finite? && 0.0 <= Efficiency(s, b, k).v <= 1.0
  {
    ProductPositive(b, k);
    NonNegativeProduct(s, k);
    NonNegativeProduct(b - s, k);
    assert b * k == s * k + (b - s) * k;
    QuotientInUnitInterval(s * k, b * k);
  }

  lemma QuotientInUnitInterval(x: real, y: real)
    requires 0.0 <= x <= y && y > 0.0
    ensures 0.0 <= x / y <= 1.0
  {
  }
}
