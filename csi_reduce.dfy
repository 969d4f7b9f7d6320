/**
 * The body of mkCsi for one energy bin, after both maps have been brought
 * to the PSF-matched resolution: the sky fraction and the unmask index set,
 * the fluctuation map dI and the permuted control map dR, the mean angle of
 * each angular bin, csi_compute over every unmasked seed pixel (p.map, here a
 * sequential map), the per-bin sums over all seeds, and the two ratios
 * csi_k = S_k / N_k and r_k = R_k / N_k.
 */
module CsiReduce {
  import opened SkyMaps
  import opened Permute
  import opened Annulus

  /** Per-bin sums over seed pixels: S_k, N_k and R_k. */
  datatype Totals = Totals(s: real, n: nat, r: real)

  function Add(a: Totals, b: Totals): Totals
  {
    Totals(a.s + b.s, a.n + b.n, a.r + b.r)
  }

  datatype CsiError = NoUnmaskedPixel

  datatype Result<T> = Ok(value: T) | Err(error: CsiError)

  /** The rows mkCsi writes for one energy bin; theta is kept squared. */
  datatype CsiTable = CsiTable(fsky: real, thetaSq: seq<real>, csi: seq<Quotient>, r: seq<Quotient>)

  /** A csi_compute result with `nb` bins, each list holding one entry. */
  predicate WellFormedPart(p: PixelResult, nb: nat)
  {
    && |p.dIij| == nb && |p.counts| == nb && |p.rij| == nb
    && forall k :: 0 <= k < nb ==> |p.dIij[k]| == 1 && |p.counts[k]| == 1 && |p.rij[k]| == 1
  }

  predicate AllWellFormed(parts: seq<PixelResult>, nb: nat)
  {
    forall j :: 0 <= j < |parts| ==> WellFormedPart(parts[j], nb)
  }

  /** What one seed pixel adds to bin k. */
  function Contribution(p: PixelResult, nb: nat, k: nat): Totals
    requires WellFormedPart(p, nb) && k < nb
  {
    Totals(p.dIij[k][0], p.counts[k][0], p.rij[k][0])
  }

  /** No seed pixel found an unmasked pixel in its ring of bin k. */
  predicate NoCounts(parts: seq<PixelResult>, nb: nat, k: nat)
    requires AllWellFormed(parts, nb) && k < nb
  {
    parts == [] || (Contribution(parts[0], nb, k).n == 0 && NoCounts(parts[1..], nb, k))
  }

  /** np.sum over the seed axis of the three columns of bin k; N_k is 0 exactly when every count is. */
  function BinTotals(parts: seq<PixelResult>, nb: nat, k: nat): (t: Totals)
    requires AllWellFormed(parts, nb) && k < nb
    ensures t.n == 0 <==> NoCounts(parts, nb, k)
  {
    if parts == [] then Totals(0.0, 0, 0.0)
    else Add(Contribution(parts[0], nb, k), BinTotals(parts[1..], nb, k))
  }

  lemma {:induction false} BinTotalsRemove(parts: seq<PixelResult>, nb: nat, k: nat, j: nat)
    requires AllWellFormed(parts, nb) && k < nb && j < |parts|
    ensures BinTotals(parts, nb, k)
         == Add(Contribution(parts[j], nb, k), BinTotals(parts[..j] + parts[j + 1..], nb, k))
  {
    if j > 0 {
      var tail := parts[1..];
      var rest := tail[..j - 1] + tail[j..];
      var others := parts[..j] + parts[j + 1..];
      WellFormedAfterRemove(parts, nb, j);
      WellFormedAfterRemove(tail, nb, j - 1);
      BinTotalsRemove(tail, nb, k, j - 1);
      RemoveAfterFirst(parts, j);
      assert others[0] == parts[0] && others[1..] == rest;
      assert tail[j - 1] == parts[j];
      var c0, cj := Contribution(parts[0], nb, k), Contribution(parts[j], nb, k);
      assert BinTotals(others, nb, k) == Add(c0, BinTotals(rest, nb, k));
      assert BinTotals(parts, nb, k) == Add(c0, Add(cj, BinTotals(rest, nb, k)));
    } else {
      assert parts[..0] + parts[1..] == parts[1..];
    }
  }

  /** Removing entry j > 0 keeps the first entry in front of the tail with its entry j - 1 removed. */
  lemma RemoveAfterFirst(parts: seq<PixelResult>, j: nat)
    requires 0 < j < |parts|
    ensures parts[..j] + parts[j + 1..] == [parts[0]] + (parts[1..][..j - 1] + parts[1..][j..])
  {
  }

  lemma WellFormedAfterRemove(parts: seq<PixelResult>, nb: nat, j: nat)
    requires AllWellFormed(parts, nb) && j < |parts|
    ensures AllWellFormed(parts[..j] + parts[j + 1..], nb)
  {
    var r := parts[..j] + parts[j + 1..];
    forall i | 0 <= i < |r| ensures WellFormedPart(r[i], nb) {
      if i < j {
        assert r[i] == parts[i];
      } else {
        assert r[i] == parts[i + 1];
      }
    }
  }

  lemma WellFormedUnderPermutation(parts: seq<PixelResult>, other: seq<PixelResult>, nb: nat)
    requires AllWellFormed(parts, nb) && multiset(parts) == multiset(other)
    ensures AllWellFormed(other, nb)
  {
    forall j | 0 <= j < |other| ensures WellFormedPart(other[j], nb) {
      assert other[j] in multiset(parts);
    }
  }

  /** Taking the first element of `parts` out of a rearrangement of it. */
  lemma MatchFirst(parts: seq<PixelResult>, other: seq<PixelResult>) returns (j: nat)
    requires parts != [] && multiset(parts) == multiset(other)
    ensures j < |other| && other[j] == parts[0]
    ensures multiset(parts[1..]) == multiset(other[..j] + other[j + 1..])
  {
    var x := parts[0];
    assert x in multiset(other);
    j :| 0 <= j < |other| && other[j] == x;
    var rest := other[..j] + other[j + 1..];
    assert other == other[..j] + [x] + other[j + 1..];
    assert parts == [x] + parts[1..];
    forall y ensures multiset(parts[1..])[y] == multiset(rest)[y] {
      assert multiset(parts)[y] == multiset(parts[1..])[y] + multiset{x}[y];
      assert multiset(other)[y] == multiset(rest)[y] + multiset{x}[y];
    }
  }

  /**
   * The reduction is a plain sum over seed pixels: the order in which the
   * worker pool hands back the per-pixel results does not change S_k, N_k or R_k.
   */
  lemma {:induction false} BinTotalsOrderIndependent(parts: seq<PixelResult>, other: seq<PixelResult>, nb: nat, k: nat)
    requires AllWellFormed(parts, nb) && k < nb
    requires multiset(parts) == multiset(other)
    ensures AllWellFormed(other, nb)
    ensures BinTotals(parts, nb, k) == BinTotals(other, nb, k)
    decreases |parts|
  {
    WellFormedUnderPermutation(parts, other, nb);
    if parts != [] {
      var j := MatchFirst(parts, other);
      var rest := other[..j] + other[j + 1..];
      WellFormedUnderPermutation(parts[1..], rest, nb);
      BinTotalsOrderIndependent(parts[1..], rest, nb, k);
      BinTotalsRemove(other, nb, k, j);
    } else {
      assert |other| == |multiset(other)|;
    }
  }

  /** The control map csi_compute is given: dR = R - Imean, shuffled over its unmasked pixels. */
  function ControlMap(rMap: seq<real>, imean: real, perm: seq<nat>): (d: seq<real>)
    requires IsPermutation(perm, |UnmaskedValues(Fluctuation(rMap, imean))|)
    ensures |d| == |rMap|
  {
    PermuteUnmasked(Fluctuation(rMap, imean), perm)
  }

  /** Inputs of the seed-pixel map: seeds, their disc queries, and two maps. */
  ghost predicate SeedsFit(seeds: seq<nat>, discs: seq<seq<set<nat>>>, dI: seq<real>, dR: seq<real>)
  {
    && |discs| == |seeds|
    && forall j :: 0 <= j < |seeds| ==>
      && seeds[j] < |dI| && seeds[j] < |dR|
      && DiscsWithin(discs[j], |dI|) && DiscsWithin(discs[j], |dR|)
  }

  /**
   * S_k, N_k and R_k stated directly on the maps: over the seed pixels, the
   * sums of dI[i] * (sum of unmasked dI in ring k of i), of the number of
   * those pixels, and of dR[i] * (sum of unmasked dR in ring k of i).
   */
  ghost function PairTotals(seeds: seq<nat>, discs: seq<seq<set<nat>>>, dI: seq<real>, dR: seq<real>, k: nat): (t: Totals)
    requires SeedsFit(seeds, discs, dI, dR)
    requires forall j :: 0 <= j < |seeds| ==> k < NumBins(|discs[j]|)
    ensures t.n == 0 <==> NoRingPixels(seeds, discs, dI, k)
  {
    if seeds == [] then Totals(0.0, 0, 0.0)
    else
      assert k < NumBins(|discs[0]|);
      var ring := BinRing(discs[0], k);
      Add(Totals(SeedRingProduct(dI, seeds[0], discs[0], k), RingCount(dI, ring, |dI|),
                 SeedRingProduct(dR, seeds[0], discs[0], k)),
          PairTotals(seeds[1..], discs[1..], dI, dR, k))
  }

  /** No seed pixel has a pixel of dI above the sentinel in its ring of bin k. */
  ghost predicate NoRingPixels(seeds: seq<nat>, discs: seq<seq<set<nat>>>, dI: seq<real>, k: nat)
  {
    forall j :: 0 <= j < |seeds| && j < |discs| && k + 1 < |discs[j]| ==>
      RingCount(dI, BinRing(discs[j], k), |dI|) == 0
  }

  lemma PixelResultsWellFormed(parts: seq<PixelResult>, seeds: seq<nat>, discs: seq<seq<set<nat>>>,
                               dI: seq<real>, dR: seq<real>, nb: nat)
    requires SeedsFit(seeds, discs, dI, dR) && |parts| == |seeds|
    requires forall j :: 0 <= j < |seeds| ==> NumBins(|discs[j]|) == nb
    requires forall j :: 0 <= j < |seeds| ==> IsPixelResult(parts[j], seeds[j], discs[j], dI, dR)
    ensures AllWellFormed(parts, nb)
  {
    forall j | 0 <= j < |parts| ensures WellFormedPart(parts[j], nb) {
      assert IsPixelResult(parts[j], seeds[j], discs[j], dI, dR);
    }
  }

  /** Summing the csi_compute results gives the pair sums over the maps. */
  lemma {:induction false} BinTotalsArePairTotals(parts: seq<PixelResult>, seeds: seq<nat>, discs: seq<seq<set<nat>>>,
                                                  dI: seq<real>, dR: seq<real>, nb: nat, k: nat)
    requires SeedsFit(seeds, discs, dI, dR) && |parts| == |seeds| && k < nb
    requires forall j :: 0 <= j < |seeds| ==> NumBins(|discs[j]|) == nb
    requires forall j :: 0 <= j < |seeds| ==> IsPixelResult(parts[j], seeds[j], discs[j], dI, dR)
    ensures AllWellFormed(parts, nb)
    ensures BinTotals(parts, nb, k) == PairTotals(seeds, discs, dI, dR, k)
  {
    PixelResultsWellFormed(parts, seeds, discs, dI, dR, nb);
    if parts != [] {
      BinTotalsArePairTotals(parts[1..], seeds[1..], discs[1..], dI, dR, nb, k);
    }
  }

  /**
   * An angular bin that no seed pixel has an unmasked dI neighbour in has
   * S_k = 0, so its csi value is NaN (0/0) rather than an error.
   */
  lemma {:induction false} EmptyBinIsNaN(seeds: seq<nat>, discs: seq<seq<set<nat>>>, dI: seq<real>, dR: seq<real>, k: nat)
    requires SeedsFit(seeds, discs, dI, dR)
    requires forall j :: 0 <= j < |seeds| ==> k < NumBins(|discs[j]|)
    requires PairTotals(seeds, discs, dI, dR, k).n == 0
    ensures PairTotals(seeds, discs, dI, dR, k).s == 0.0
    ensures Divide(PairTotals(seeds, discs, dI, dR, k).s, 0.0) == NaN
  {
    if seeds != [] {
      EmptyBinIsNaN(seeds[1..], discs[1..], dI, dR, k);
    }
  }

  /**
   * mkCsi reads the control map from the same flux file: then dR has the
   * same sentinel pattern as dI and every ring holds as many unmasked dR
   * pixels as unmasked dI pixels, so N_k is also the number of R terms.
   */
  lemma SameFileControlSharesCounts(flux: seq<real>, imean: real, perm: seq<nat>, ring: set<nat>)
    requires IsPermutation(perm, |UnmaskedValues(Fluctuation(flux, imean))|)
    ensures RingCount(ControlMap(flux, imean, perm), ring, |flux|)
         == RingCount(Fluctuation(flux, imean), ring, |flux|)
  {
    PermutePreservesUnmaskedMultiset(Fluctuation(flux, imean), perm);
    SameMaskSameCount(ControlMap(flux, imean, perm), Fluctuation(flux, imean), ring, |flux|);
  }

  /** The mean angle of a bin, sqrt(thmin * thmax), lies inside the bin: thmin^2 <= theta^2 < thmax^2. */
  lemma GeometricMeanInsideBin(thMin: real, thMax: real, thetaSq: real)
    requires 0.0 <= thMin < thMax && thetaSq == thMin * thMax
    ensures thMin * thMin <= thetaSq < thMax * thMax
  {
    assert thMin * thMax < thMax * thMax;
  }

  lemma MeanAnglesInsideBins(thBins: seq<real>, thetaSq: seq<real>)
    requires |thetaSq| == NumBins(|thBins|)
    requires forall k :: 0 <= k < |thetaSq| ==> thetaSq[k] == thBins[k] * thBins[k + 1]
    ensures (forall k :: 0 <= k < |thBins| - 1 ==> 0.0 <= thBins[k] < thBins[k + 1]) ==>
      forall k :: 0 <= k < |thetaSq| ==> thBins[k] * thBins[k] <= thetaSq[k] < thBins[k + 1] * thBins[k + 1]
  {
    if forall k :: 0 <= k < |thBins| - 1 ==> 0.0 <= thBins[k] < thBins[k + 1] {
      forall k | 0 <= k < |thetaSq|
        ensures thBins[k] * thBins[k] <= thetaSq[k] < thBins[k + 1] * thBins[k + 1]
      {
        GeometricMeanInsideBin(thBins[k], thBins[k + 1], thetaSq[k]);
      }
    }
  }

  /** The `theta` loop: one mean angle per bin, kept as its square th_k * th_(k+1). */
  method MeanAngles(thBins: seq<real>) returns (thetaSq: seq<real>)
    ensures |thetaSq| == NumBins(|thBins|)
    ensures forall k :: 0 <= k < |thetaSq| ==> thetaSq[k] == thBins[k] * thBins[k + 1]
    ensures (forall k :: 0 <= k < |thBins| - 1 ==> 0.0 <= thBins[k] < thBins[k + 1]) ==>
      forall k :: 0 <= k < |thetaSq| ==> thBins[k] * thBins[k] <= thetaSq[k] < thBins[k + 1] * thBins[k + 1]
  {
    thetaSq := [];
    for k := 0 to NumBins(|thBins|)
      invariant |thetaSq| == k
      invariant forall l :: 0 <= l < k ==> thetaSq[l] == thBins[l] * thBins[l + 1]
    {
      thetaSq := thetaSq + [thBins[k] * thBins[k + 1]];
    }
    MeanAnglesInsideBins(thBins, thetaSq);
  }

  /** p.map(csi_compute, args): csi_compute for every seed pixel, in seed order. */
  method MapSeeds(seeds: seq<nat>, discs: seq<seq<set<nat>>>, dI: seq<real>, dR: seq<real>)
    returns (parts: seq<PixelResult>)
    requires SeedsFit(seeds, discs, dI, dR)
    ensures |parts| == |seeds|
    ensures forall j :: 0 <= j < |seeds| ==> IsPixelResult(parts[j], seeds[j], discs[j], dI, dR)
  {
    parts := [];
    for j := 0 to |seeds|
      invariant |parts| == j
      invariant forall l :: 0 <= l < j ==> IsPixelResult(parts[l], seeds[l], discs[l], dI, dR)
    {
      var p := CsiCompute(seeds[j], discs[j], dI, dR);
      parts := parts + [p];
    }
  }

  /** The loop over bins of the first seed's result, summing each column over all seeds. */
  method ReduceBins(parts: seq<PixelResult>) returns (sumIj: seq<real>, sumF: seq<nat>, sumR: seq<real>)
    requires |parts| > 0 && AllWellFormed(parts, |parts[0].dIij|)
    ensures |sumIj| == |sumF| == |sumR| == |parts[0].dIij|
    ensures forall k :: 0 <= k < |sumIj| ==>
      Totals(sumIj[k], sumF[k], sumR[k]) == BinTotals(parts, |parts[0].dIij|, k)
  {
    var nb := |parts[0].dIij|;
    sumIj, sumF, sumR := [], [], [];
    for k := 0 to nb
      invariant |sumIj| == |sumF| == |sumR| == k
      invariant forall l :: 0 <= l < k ==> Totals(sumIj[l], sumF[l], sumR[l]) == BinTotals(parts, nb, l)
    {
      var t := BinTotals(parts, nb, k);
      sumIj := sumIj + [t.s];
      sumF := sumF + [t.n];
      sumR := sumR + [t.r];
    }
  }

  /** Both ratios are normalised by the dI counts: csi = S / N and r = R / N. */
  function Normalise(sums: seq<real>, counts: seq<nat>): (q: seq<Quotient>)
    requires |sums| == |counts|
    ensures |q| == |sums|
    ensures forall k :: 0 <= k < |q| ==> (q[k].Finite? <==> counts[k] > 0)
    ensures forall k :: 0 <= k < |q| && counts[k] > 0 ==> q[k].value * counts[k] as real == sums[k]
  {
    seq(|sums|, k requires 0 <= k < |sums| => Divide(sums[k], counts[k] as real))
  }

  /**
   * mkCsi for one energy bin, from the PSF-matched flux map and control map,
   * the mean flux Imean, the angular binning, each seed pixel's disc queries
   * (one per threshold, seeds in unmask order) and the drawn permutation.
   */
  method MkCsiBin(flux: seq<real>, rMap: seq<real>, imean: real, thBins: seq<real>,
                  discs: seq<seq<set<nat>>>, perm: seq<nat>) returns (res: Result<CsiTable>)
    requires |flux| > 0 && |rMap| == |flux|
    requires |discs| == |UnmaskIndices(flux)|
    requires forall j :: 0 <= j < |discs| ==> |discs[j]| == |thBins| && DiscsWithin(discs[j], |flux|)
    requires IsPermutation(perm, |UnmaskedValues(Fluctuation(rMap, imean))|)
    ensures res.Err? <==> |UnmaskIndices(flux)| == 0
    ensures res.Ok? ==>
      && res.value.fsky == Fsky(flux)
      && |res.value.thetaSq| == |res.value.csi| == |res.value.r| == NumBins(|thBins|)
      && (forall k :: 0 <= k < NumBins(|thBins|) ==> res.value.thetaSq[k] == thBins[k] * thBins[k + 1])
    ensures res.Ok? ==> forall k :: 0 <= k < NumBins(|thBins|) ==>
      var t := PairTotals(UnmaskIndices(flux), discs, Fluctuation(flux, imean), ControlMap(rMap, imean, perm), k);
      && res.value.csi[k] == Divide(t.s, t.n as real)
      && res.value.r[k] == Divide(t.r, t.n as real)
  {
    var fsky := Fsky(flux);
    var unmask := UnmaskIndices(flux);
    var dI := Fluctuation(flux, imean);
    var dRArr := new real[|rMap|](i requires 0 <= i < |rMap| => Fluctuation(rMap, imean)[i]);
    assert dRArr[..] == Fluctuation(rMap, imean);
    var _ := PermuteUnmaskedPix(dRArr, perm);
    var dR := dRArr[..];
    var thetaSq := MeanAngles(thBins);
    if |unmask| == 0 {
      return Err(NoUnmaskedPixel);
    }
    var nb := NumBins(|thBins|);
    assert SeedsFit(unmask, discs, dI, dR);
    var parts := MapSeeds(unmask, discs, dI, dR);
    assert NumBins(|discs[0]|) == nb;
    PixelResultsWellFormed(parts, unmask, discs, dI, dR, nb);
    var sumIj, sumF, sumR := ReduceBins(parts);
    forall k | 0 <= k < nb
      ensures BinTotals(parts, nb, k) == PairTotals(unmask, discs, dI, dR, k)
    {
      BinTotalsArePairTotals(parts, unmask, discs, dI, dR, nb, k);
    }
    var csi := Normalise(sumIj, sumF);
    var r := Normalise(sumR, sumF);
    res := Ok(CsiTable(fsky, thetaSq, csi, r));
  }
}
