/** The result table of `find_best_cuts_sens` and `sensitivity`: one row
    per energy bin, holding the bin's edges `ebin_low`, `ebin_up` and the
    quantities of the bin's result row. The table is built with Python's
    `zip` of the edge columns and the per-bin columns, so it is as long as
    the shortest column. */
module ResultTable {
  import opened Numeric
  import opened CutQuantities

  datatype TableRow = TableRow(ebinLow: real, ebinUp: real, bin: BinResult)

  function Min3(a: nat, b: nat, c: nat): nat
  {
    if a <= b && a <= c then a else if b <= c then b else c
  }

  /** Python's `zip` of three columns: row `i` holds the `i`-th entry of
      each, and there are as many rows as the shortest column has entries. */
  function Zip(lows: seq<real>, ups: seq<real>, bins: seq<BinResult>): (t: seq<TableRow>)
    ensures |t| == Min3(|lows|, |ups|, |bins|)
    ensures forall i :: 0 <= i < |t| ==> t[i] == TableRow(lows[i], ups[i], bins[i])
  {
    if |lows| == 0 || |ups| == 0 || |bins| == 0 then []
    else [TableRow(lows[0], ups[0], bins[0])] + Zip(lows[1..], ups[1..], bins[1..])
  }

  /** A Python slice `E[:stop]`: a negative stop counts from the end, and
      the slice is empty once it reaches before the start. */
  function PrefixTo(E: seq<real>, stop: int): (r: seq<real>)
    ensures |r| <= |E| && r == E[..|r|]
    ensures stop >= 0 ==> |r| == (if stop < |E| then stop else |E|)
    ensures stop < 0 ==> |r| == (if |E| + stop > 0 then |E| + stop else 0)
  {
    if stop > |E| then E
    else if stop >= 0 then E[..stop]
    else if |E| + stop >= 0 then E[..|E| + stop]
    else []
  }

  /** The table as the source builds it: `zip(E[:E.shape[0]-2], E[1:], ...)`
      for the `|E|` energy edges and the per-bin results `bins`. */
  function AsWrittenTable(E: seq<real>, bins: seq<BinResult>): (t: seq<TableRow>)
    requires |E| >= 1
    ensures |t| == Min3(if |E| >= 2 then |E| - 2 else 0, |E| - 1, |bins|)
    ensures forall i :: 0 <= i < |t| ==> t[i] == TableRow(E[i], E[i + 1], bins[i])
  {
    Zip(PrefixTo(E, |E| - 2), E[1..], bins)
  }

  /** The table with one row per energy bin: the lower edges are `E[:-1]`. */
  function CorrectedTable(E: seq<real>, bins: seq<BinResult>): (t: seq<TableRow>)
    requires |E| >= 1 && |bins| == |E| - 1
    ensures |t| == |E| - 1
    ensures forall i :: 0 <= i < |t| ==> t[i].ebinLow == E[i] && t[i].ebinUp == E[i + 1] && t[i].bin == bins[i]
  {
    Zip(E[..|E| - 1], E[1..], bins)
  }

  /** The source's table has one row fewer than there are energy bins: the
      rows it has are right, but the last bin never appears in it. */
  lemma AsWrittenTableDropsLastBin(E: seq<real>, bins: seq<BinResult>)
    requires |E| >= 2 && |bins| == |E| - 1
    ensures |AsWrittenTable(E, bins)| == |E| - 2
    ensures forall i :: 0 <= i < |E| - 2 ==> AsWrittenTable(E, bins)[i] == CorrectedTable(E, bins)[i]
    ensures StrictlyIncreasing(E) ==>
              forall i :: 0 <= i < |E| - 2 ==> AsWrittenTable(E, bins)[i].ebinUp < E[|E| - 1]
  {
  }

  /** Two edges, one energy bin: the source's table is empty. */
  lemma AsWrittenTableOneBin(row: BinResult)
    ensures AsWrittenTable([10.0, 100.0], [row]) == []
    ensures CorrectedTable([10.0, 100.0], [row]) == [TableRow(10.0, 100.0, row)]
  {
    assert PrefixTo([10.0, 100.0], 0) == [];
  }

  /** With strictly increasing edges the corrected table covers the energy
      range without gaps: each row is a non-empty bin that starts where the
      previous one ends, from the first edge to the last. */
  lemma CorrectedTableContiguous(E: seq<real>, bins: seq<BinResult>)
    requires |E| >= 2 && |bins| == |E| - 1 && StrictlyIncreasing(E)
    ensures var t := CorrectedTable(E, bins);
            && t[0].ebinLow == E[0] && t[|t| - 1].ebinUp == E[|E| - 1]
            && (forall i :: 0 <= i < |t| ==> t[i].ebinLow < t[i].ebinUp)
            && (forall i :: 0 <= i < |t| - 1 ==> t[i].ebinUp == t[i + 1].ebinLow)
  {
  }
}
