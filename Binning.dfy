/** `bin_definition`: the gammaness and theta2 cut grids scanned by the
    optimiser. Theta2 values are in square degrees. */
module Binning {
  import opened Numeric

  const MaxGammaness: real := 1.0
  const MinTheta2: real := 0.005
  const MaxTheta2: real := 0.05

  /** `np.linspace(start, stop, num)`: `num` evenly spaced values including
      both endpoints; a single value is `start`. */
  function Linspace(start: real, stop: real, num: nat): (r: seq<real>)
    ensures |r| == num
  {
    if num == 1 then [start]
    else seq(num, i requires 0 <= i < num => start + (i as real) * Step(start, stop, num))
  }

  /** The spacing `(stop - start) / (num - 1)` of a grid of two or more values. */
  function Step(start: real, stop: real, num: nat): real
  {
    if num >= 2 then (stop - start) / ((num - 1) as real) else 0.0
  }

  lemma {:induction false} LinspaceEndpoints(start: real, stop: real, num: nat)
    ensures num >= 1 ==> Linspace(start, stop, num)[0] == start
    ensures num >= 2 ==> Linspace(start, stop, num)[num - 1] == stop
  {
    if num >= 2 {
      var d := (num - 1) as real;
      assert Linspace(start, stop, num)[num - 1] == start + d * Step(start, stop, num);
      assert d * Step(start, stop, num) == stop - start;
    }
  }

  /** Consecutive values differ by the step `(stop - start) / (num - 1)`. */
  lemma {:induction false} LinspaceEvenlySpaced(start: real, stop: real, num: nat, i: nat)
    requires num >= 2 && i + 1 < num
    ensures Linspace(start, stop, num)[i + 1] - Linspace(start, stop, num)[i] == (stop - start) / ((num - 1) as real)
  {
    var step := Step(start, stop, num);
    assert ((i + 1) as real) * step == (i as real) * step + step;
  }

  /** An increasing range gives a strictly increasing grid. */
  lemma {:induction false} LinspaceIncreasing(start: real, stop: real, num: nat)
    requires start < stop
    ensures StrictlyIncreasing(Linspace(start, stop, num))
  {
    var r := Linspace(start, stop, num);
    if num >= 2 {
      var step := Step(start, stop, num);
      assert step > 0.0;
      forall i, j | 0 <= i < j < num
        ensures r[i] < r[j]
      {
        ProductPositive((j - i) as real, step);
        assert (j as real) * step == (i as real) * step + ((j - i) as real) * step;
      }
    }
  }

  /** Every grid value lies between the endpoints. */
  lemma {:induction false} LinspaceBounds(start: real, stop: real, num: nat)
    requires start <= stop
    ensures forall i :: 0 <= i < num ==> start <= Linspace(start, stop, num)[i] <= stop
  {
    var r := Linspace(start, stop, num);
    if num >= 2 {
      var d := (num - 1) as real;
      var step := Step(start, stop, num);
      assert step >= 0.0;
      assert d * step == stop - start;
      forall i | 0 <= i < num
        ensures start <= r[i] <= stop
      {
        NonNegativeProduct(i as real, step);
        NonNegativeProduct(d - i as real, step);
        assert d * step == (i as real) * step + (d - i as real) * step;
      }
    }
  }

  /** The gammaness cuts `linspace(0, 1, gb)` and theta2 cuts
      `linspace(0.005, 0.05, tb)`: strictly increasing, within their ranges,
      starting at the lower limit and (with two or more values) ending at
      the upper one. */
  function BinDefinition(gb: nat, tb: nat): (grids: (seq<real>, seq<real>))
    ensures var (g, t) := grids;
            && |g| == gb && |t| == tb
            && StrictlyIncreasing(g) && StrictlyIncreasing(t)
            && (forall j :: 0 <= j < gb ==> 0.0 <= g[j] <= MaxGammaness)
            && (forall k :: 0 <= k < tb ==> MinTheta2 <= t[k] <= MaxTheta2)
            && (gb >= 1 ==> g[0] == 0.0) && (gb >= 2 ==> g[gb - 1] == MaxGammaness)
            && (tb >= 1 ==> t[0] == MinTheta2) && (tb >= 2 ==> t[tb - 1] == MaxTheta2)
  {
    LinspaceIncreasing(0.0, MaxGammaness, gb);
    LinspaceIncreasing(MinTheta2, MaxTheta2, tb);
    LinspaceBounds(0.0, MaxGammaness, gb);
    LinspaceBounds(MinTheta2, MaxTheta2, tb);
    LinspaceEndpoints(0.0, MaxGammaness, gb);
    LinspaceEndpoints(MinTheta2, MaxTheta2, tb);
    (Linspace(0.0, MaxGammaness, gb), Linspace(MinTheta2, MaxTheta2, tb))
  }
}
