/**
 * The flux summation of mkAnalysis: for every energy bin, the flux maps of
 * the bin's labels are read, the index set `_index` is taken from the map
 * read last, every further map is added into the first one in place at the
 * positions of `_index`, the mean flux over `_index` is computed, and it is
 * recorded in the bin's entry of a list of mean fluxes that starts as zeros.
 *
 * Reading a FITS map (hp.read_map) is modelled as allocating a fresh array
 * holding the given pixel values; writing and plotting are not modelled.
 */
module Analysis {
  import opened SkyMaps

  /** The labels' flux maps of one entry of the file dictionary, with its bin number. */
  datatype BinFiles = BinFiles(binNum: nat, maps: seq<seq<real>>)

  /** All maps of a bin have the same number of pixels. */
  predicate SameLength(maps: seq<seq<real>>)
  {
    forall j :: 0 <= j < |maps| ==> |maps[j]| == |maps[0]|
  }

  /** The pixel values of each array, in order. */
  function Snapshot(maps: seq<array<real>>): (r: seq<seq<real>>)
    reads maps
    ensures |r| == |maps|
    ensures forall j :: 0 <= j < |maps| ==> r[j] == maps[j][..]
  {
    seq(|maps|, j requires 0 <= j < |maps| reads maps => maps[j][..])
  }

  lemma SnapshotAppend(maps: seq<array<real>>, a: array<real>)
    ensures Snapshot(maps + [a]) == Snapshot(maps) + [a[..]]
  {
  }

  /** Sum of pixel `i` over all maps, first to last. */
  function ColumnSum(maps: seq<seq<real>>, i: nat): real
    requires forall j :: 0 <= j < |maps| ==> i < |maps[j]|
  {
    if maps == [] then 0.0 else ColumnSum(maps[..|maps| - 1], i) + maps[|maps| - 1][i]
  }

  /** The column sum of a single map is that map's pixel. */
  lemma ColumnSumOfOneMap(maps: seq<seq<real>>)
    ensures |maps| == 1 ==> forall i :: 0 <= i < |maps[0]| ==> ColumnSum(maps, i) == maps[0][i]
  {
    if |maps| == 1 {
      assert maps[..0] == [];
    }
  }

  /** Every entry of `index` is a pixel of a map of `npix` pixels. */
  predicate IndexWithin(index: seq<nat>, npix: nat)
  {
    forall k :: 0 <= k < |index| ==> index[k] < npix
  }

  /**
   * The first map after the summation loop: at a pixel of `index` it holds
   * the sum over all maps, elsewhere its own value. With no index or with a
   * single map, the first map is left as it was.
   */
  function SumAtIndex(maps: seq<seq<real>>, index: seq<nat>): (r: seq<real>)
    requires |maps| > 0 && SameLength(maps) && IndexWithin(index, |maps[0]|)
    ensures |r| == |maps[0]|
    ensures index == [] ==> r == maps[0]
    ensures |maps| == 1 ==> r == maps[0]
  {
    ColumnSumOfOneMap(maps);
    seq(|maps[0]|, i requires 0 <= i < |maps[0]| =>
      if i in index then ColumnSum(maps, i) else maps[0][i])
  }

  /** The map a dictionary entry's summation leaves behind; an entry with one label keeps its map. */
  function BinSum(maps: seq<seq<real>>): (r: seq<real>)
    requires |maps| > 0 && SameLength(maps)
    ensures |r| == |maps[0]|
    ensures |maps| == 1 ==> r == maps[0]
  {
    SumAtIndex(maps, LastUnmask(maps))
  }

  /** `_index`: the pixels of the map read last that are not the sentinel. */
  function LastUnmask(maps: seq<seq<real>>): (index: seq<nat>)
    requires |maps| > 0 && SameLength(maps)
    ensures IndexWithin(index, |maps[0]|)
  {
    UnmaskIndicesExact(maps[|maps| - 1]);
    UnmaskIndices(maps[|maps| - 1])
  }

  /** Sum of `v` over the pixels listed in `index`. */
  function IndexSum(v: seq<real>, index: seq<nat>): real
    requires IndexWithin(index, |v|)
  {
    if index == [] then 0.0
    else IndexSum(v, index[..|index| - 1]) + v[index[|index| - 1]]
  }

  /** np.sum(v[index]) / len(v[index]) under numpy's float division. */
  function MeanOver(v: seq<real>, index: seq<nat>): (m: Quotient)
    requires IndexWithin(index, |v|)
    ensures m.Finite? <==> |index| > 0
    ensures index == [] ==> m == NaN
    ensures m.Finite? ==> m.value * |index| as real == IndexSum(v, index)
  {
    Divide(IndexSum(v, index), |index| as real)
  }

  /** The mean flux of a bin: the mean of the summed map over `_index`. */
  function BinMean(maps: seq<seq<real>>): (m: Quotient)
    requires |maps| > 0 && SameLength(maps)
    ensures m.Finite? <==> |LastUnmask(maps)| > 0
  {
    MeanOver(BinSum(maps), LastUnmask(maps))
  }

  /** Every bin number is an entry of the energy binning and every bin has maps of one size. */
  predicate WellFormedBins(nEnergies: nat, bins: seq<BinFiles>)
  {
    forall b :: 0 <= b < |bins| ==>
      bins[b].binNum < nEnergies && |bins[b].maps| > 0 && SameLength(bins[b].maps)
  }

  /** `_fmean` after the bins have been processed in dictionary order. */
  function FmeanAfter(nEnergies: nat, bins: seq<BinFiles>): (f: seq<Quotient>)
    requires WellFormedBins(nEnergies, bins)
    ensures |f| == nEnergies
  {
    if bins == [] then seq(nEnergies, _ => Finite(0.0))
    else
      var last := bins[|bins| - 1];
      FmeanAfter(nEnergies, bins[..|bins| - 1])[last.binNum := BinMean(last.maps)]
  }

  /** An energy bin that no dictionary entry names keeps its initial 0. */
  lemma {:induction false} UnassignedEntryStaysZero(nEnergies: nat, bins: seq<BinFiles>, e: nat)
    requires WellFormedBins(nEnergies, bins) && e < nEnergies
    requires forall b :: 0 <= b < |bins| ==> bins[b].binNum != e
    ensures FmeanAfter(nEnergies, bins)[e] == Finite(0.0)
  {
    if bins != [] {
      UnassignedEntryStaysZero(nEnergies, bins[..|bins| - 1], e);
    }
  }

  /**
   * The entry of an energy bin holds the mean flux of the last dictionary
   * entry that names it: a later entry with the same bin number overwrites
   * an earlier one.
   */
  lemma {:induction false} LastWriteWins(nEnergies: nat, bins: seq<BinFiles>, b: nat)
    requires WellFormedBins(nEnergies, bins) && b < |bins|
    requires forall c :: b < c < |bins| ==> bins[c].binNum != bins[b].binNum
    ensures FmeanAfter(nEnergies, bins)[bins[b].binNum] == BinMean(bins[b].maps)
  {
    var init := bins[..|bins| - 1];
    assert WellFormedBins(nEnergies, init);
    if b < |bins| - 1 {
      assert init[b] == bins[b];
      LastWriteWins(nEnergies, init, b);
      assert FmeanAfter(nEnergies, bins) == FmeanAfter(nEnergies, init)[bins[|bins| - 1].binNum := BinMean(bins[|bins| - 1].maps)];
    }
  }

  /** Every entry of `index` is a pixel of every map. */
  predicate MapsWithin(maps: seq<seq<real>>, index: seq<nat>)
  {
    forall j, k :: 0 <= j < |maps| && 0 <= k < |index| ==> index[k] < |maps[j]|
  }

  /** Sum over the maps of each map's sum over `index`. */
  function MapsIndexSum(maps: seq<seq<real>>, index: seq<nat>): real
    requires MapsWithin(maps, index)
  {
    if maps == [] then 0.0
    else MapsIndexSum(maps[..|maps| - 1], index) + IndexSum(maps[|maps| - 1], index)
  }

  lemma {:induction false} MapsIndexSumStep(maps: seq<seq<real>>, index: seq<nat>)
    requires index != [] && MapsWithin(maps, index)
    ensures MapsIndexSum(maps, index)
         == MapsIndexSum(maps, index[..|index| - 1]) + ColumnSum(maps, index[|index| - 1])
  {
    if maps != [] {
      MapsIndexSumStep(maps[..|maps| - 1], index);
    }
  }

  /** Summing a map whose pixels are column sums is summing every map over the same pixels. */
  lemma {:induction false} IndexSumOfColumns(v: seq<real>, maps: seq<seq<real>>, index: seq<nat>)
    requires IndexWithin(index, |v|) && MapsWithin(maps, index)
    requires forall k :: 0 <= k < |index| ==> v[index[k]] == ColumnSum(maps, index[k])
    ensures IndexSum(v, index) == MapsIndexSum(maps, index)
  {
    if index != [] {
      IndexSumOfColumns(v, maps, index[..|index| - 1]);
      MapsIndexSumStep(maps, index);
    } else {
      assert MapsIndexSum(maps, []) == 0.0 by {
        MapsIndexSumEmpty(maps);
      }
    }
  }

  lemma {:induction false} MapsIndexSumEmpty(maps: seq<seq<real>>)
    ensures MapsIndexSum(maps, []) == 0.0
  {
    if maps != [] {
      MapsIndexSumEmpty(maps[..|maps| - 1]);
    }
  }

  /**
   * The mean flux of a bin is the sum, over the bin's maps, of each map's
   * total over `_index`, divided by the size of `_index`: it is NaN when the
   * last map is entirely the sentinel.
   */
  lemma BinMeanIsSumOverMaps(maps: seq<seq<real>>)
    requires |maps| > 0 && SameLength(maps)
    ensures BinMean(maps) == Divide(MapsIndexSum(maps, LastUnmask(maps)), |LastUnmask(maps)| as real)
    ensures BinMean(maps) == NaN <==> |LastUnmask(maps)| == 0
  {
    var index := LastUnmask(maps);
    var total := SumAtIndex(maps, index);
    forall k | 0 <= k < |index| ensures total[index[k]] == ColumnSum(maps, index[k]) {
      assert index[k] in index;
    }
    IndexSumOfColumns(total, maps, index);
    if |index| == 0 {
      MapsIndexSumEmpty(maps);
    }
  }

  lemma {:induction false} IndexSumBounds(v: seq<real>, index: seq<nat>, lo: real, hi: real)
    requires IndexWithin(index, |v|)
    requires forall k :: 0 <= k < |index| ==> lo <= v[index[k]] <= hi
    ensures lo * |index| as real <= IndexSum(v, index) <= hi * |index| as real
  {
    if index != [] {
      var init := index[..|index| - 1];
      assert forall k :: 0 <= k < |init| ==> init[k] == index[k];
      IndexSumBounds(v, init, lo, hi);
      var m := |init| as real;
      var x := v[index[|index| - 1]];
      assert IndexSum(v, index) == IndexSum(v, init) + x;
      assert |index| as real == m + 1.0;
      assert lo <= x <= hi;
      assert lo * (m + 1.0) == lo * m + lo;
      assert hi * (m + 1.0) == hi * m + hi;
      assert lo * m + lo <= IndexSum(v, index) <= hi * m + hi;
    }
  }

  /** A mean over a non-empty index set lies between the smallest and the largest value averaged. */
  lemma MeanWithinBounds(v: seq<real>, index: seq<nat>, lo: real, hi: real)
    requires IndexWithin(index, |v|) && |index| > 0
    requires forall k :: 0 <= k < |index| ==> lo <= v[index[k]] <= hi
    ensures MeanOver(v, index).Finite?
    ensures lo <= MeanOver(v, index).value <= hi
  {
    IndexSumBounds(v, index, lo, hi);
    var n := |index| as real;
    var m := MeanOver(v, index).value;
    assert m * n == IndexSum(v, index);
    assert lo * n <= m * n <= hi * n;
  }

  /**
   * After the summation, a pixel holds the sum over all the bin's maps
   * exactly where the map read last is not the sentinel, and keeps the first
   * map's value wherever the last map is the sentinel, whatever the earlier
   * maps hold there.
   */
  lemma BinSumAtPixel(maps: seq<seq<real>>, i: nat)
    requires |maps| > 0 && SameLength(maps) && i < |maps[0]|
    ensures maps[|maps| - 1][i] != Unseen ==> BinSum(maps)[i] == ColumnSum(maps, i)
    ensures maps[|maps| - 1][i] == Unseen ==> BinSum(maps)[i] == maps[0][i]
  {
    var last := maps[|maps| - 1];
    UnmaskIndicesExact(last);
    if last[i] == Unseen {
      assert i !in LastUnmask(maps);
    }
  }

  /**
   * The summation loop: every further map is added into the first one, in
   * place, at the pixels of `index`; the first map is returned as the sum.
   */
  method AccumulateAtIndex(fluxBin: seq<array<real>>, index: seq<nat>) returns (fluxBinSum: array<real>)
    requires |fluxBin| > 0
    requires forall j :: 0 <= j < |fluxBin| ==> fluxBin[j].Length == fluxBin[0].Length
    requires forall j :: 0 < j < |fluxBin| ==> fluxBin[j] != fluxBin[0]
    requires IndexWithin(index, fluxBin[0].Length)
    requires forall k, l :: 0 <= k < l < |index| ==> index[k] != index[l]
    modifies fluxBin[0]
    ensures fluxBinSum == fluxBin[0]
    ensures fluxBinSum[..] == SumAtIndex(old(Snapshot(fluxBin)), index)
  {
    ghost var s := Snapshot(fluxBin);
    fluxBinSum := fluxBin[0];
    assert s[..1] == [s[0]];
    for j := 1 to |fluxBin|
      invariant forall i :: 0 <= i < fluxBinSum.Length ==>
        fluxBinSum[i] == if i in index then ColumnSum(s[..j], i) else s[0][i]
    {
      var m := fluxBin[j];
      assert s[..j + 1][..j] == s[..j];
      for k := 0 to |index|
        invariant forall i :: 0 <= i < fluxBinSum.Length ==>
          fluxBinSum[i] == if i in index[..k] then ColumnSum(s[..j + 1], i)
                           else if i in index then ColumnSum(s[..j], i) else s[0][i]
      {
        assert index[..k + 1] == index[..k] + [index[k]];
        fluxBinSum[index[k]] := fluxBinSum[index[k]] + m[index[k]];
      }
      assert index[..|index|] == index;
    }
    assert s[..|fluxBin|] == s;
  }

  /** hp.read_map: a fresh array holding the map's pixel values. */
  method ReadMap(values: seq<real>) returns (m: array<real>)
    ensures fresh(m) && m[..] == values
  {
    m := new real[|values|](i requires 0 <= i < |values| => values[i]);
  }

  /**
   * The reading loop of one dictionary entry: one fresh array per label, and
   * `_index` recomputed from every map read, so that the last map's
   * unmasked pixels are the ones that remain.
   */
  method ReadMaps(labels: seq<seq<real>>) returns (fluxBin: seq<array<real>>, index: seq<nat>)
    ensures Snapshot(fluxBin) == labels
    ensures forall j :: 0 <= j < |fluxBin| ==> fresh(fluxBin[j])
    ensures forall j :: 0 < j < |fluxBin| ==> fluxBin[j] != fluxBin[0]
    ensures index == if labels == [] then [] else UnmaskIndices(labels[|labels| - 1])
  {
    fluxBin := [];
    index := [];
    for l := 0 to |labels|
      invariant Snapshot(fluxBin) == labels[..l]
      invariant forall j :: 0 <= j < |fluxBin| ==> fresh(fluxBin[j])
      invariant forall j :: 0 < j < |fluxBin| ==> fluxBin[j] != fluxBin[0]
      invariant index == if l == 0 then [] else UnmaskIndices(labels[l - 1])
    {
      var fluxMap := ReadMap(labels[l]);
      index := UnmaskIndices(fluxMap[..]);
      SnapshotAppend(fluxBin, fluxMap);
      fluxBin := fluxBin + [fluxMap];
      assert labels[..l + 1] == labels[..l] + [labels[l]];
    }
    assert labels[..|labels|] == labels;
  }

  /**
   * One entry of the file dictionary: read its maps, add them into the first
   * one at `_index`, and take the mean flux over `_index`.
   */
  method SumBin(labels: seq<seq<real>>) returns (fluxBinSum: array<real>, meanFlux: Quotient)
    requires |labels| > 0 && SameLength(labels)
    ensures fresh(fluxBinSum)
    ensures fluxBinSum[..] == BinSum(labels)
    ensures meanFlux == BinMean(labels)
  {
    var fluxBin, index := ReadMaps(labels);
    assert index == LastUnmask(labels);
    UnmaskIndicesExact(labels[|labels| - 1]);
    fluxBinSum := AccumulateAtIndex(fluxBin, index);
    assert fluxBinSum[..] == SumAtIndex(labels, index);
    meanFlux := MeanOver(fluxBinSum[..], index);
  }

  /** The summed map of every dictionary entry, in iteration order. */
  function BinSums(bins: seq<BinFiles>): (r: seq<seq<real>>)
    requires forall b :: 0 <= b < |bins| ==> |bins[b].maps| > 0 && SameLength(bins[b].maps)
    ensures |r| == |bins|
  {
    if bins == [] then [] else BinSums(bins[..|bins| - 1]) + [BinSum(bins[|bins| - 1].maps)]
  }

  lemma NextBin(nEnergies: nat, bins: seq<BinFiles>, b: nat)
    requires WellFormedBins(nEnergies, bins) && b < |bins|
    ensures WellFormedBins(nEnergies, bins[..b]) && WellFormedBins(nEnergies, bins[..b + 1])
    ensures FmeanAfter(nEnergies, bins[..b + 1])
         == FmeanAfter(nEnergies, bins[..b])[bins[b].binNum := BinMean(bins[b].maps)]
    ensures BinSums(bins[..b + 1]) == BinSums(bins[..b]) + [BinSum(bins[b].maps)]
  {
    assert bins[..b + 1][..b] == bins[..b];
  }

  /**
   * mkAnalysis over the file dictionary, in iteration order: `_fmean` ends
   * as the mean fluxes recorded bin by bin, and the summed map of each
   * entry is the first map read for it.
   */
  method MkAnalysis(nEnergies: nat, bins: seq<BinFiles>) returns (fmean: seq<Quotient>, finalMaps: seq<array<real>>)
    requires WellFormedBins(nEnergies, bins)
    ensures fmean == FmeanAfter(nEnergies, bins)
    ensures Snapshot(finalMaps) == BinSums(bins)
    ensures forall b :: 0 <= b < |finalMaps| ==> fresh(finalMaps[b])
  {
    fmean := seq(nEnergies, _ => Finite(0.0));
    finalMaps := [];
    for b := 0 to |bins|
      invariant fmean == FmeanAfter(nEnergies, bins[..b])
      invariant Snapshot(finalMaps) == BinSums(bins[..b])
      invariant forall c :: 0 <= c < |finalMaps| ==> fresh(finalMaps[c])
    {
      var fluxBinSum, meanFlux := SumBin(bins[b].maps);
      SnapshotAppend(finalMaps, fluxBinSum);
      finalMaps := finalMaps + [fluxBinSum];
      fmean := fmean[bins[b].binNum := meanFlux];
      NextBin(nEnergies, bins, b);
    }
    assert bins[..|bins|] == bins;
  }
}
