/**
 * csi_compute: the per-seed-pixel annulus accumulator. For one seed pixel
 * and each pair of consecutive angular thresholds it takes the ring of
 * pixels between the two discs around the seed, keeps the ring pixels above
 * the sentinel (separately for the fluctuation map dI and the control map R),
 * and records dI[i] * (sum of dI over the ring), the number of those dI
 * pixels, and R[i] * (sum of R over the ring).
 *
 * The disc queries (hp.query_disc) are inputs: `discs[t]` is the set of
 * pixels within the t-th threshold angle of the seed.
 */
module Annulus {
  import opened SkyMaps

  /** Number of angular bins for a binning of `n` thresholds: len(th_bins) - 1, or none. */
  function NumBins(n: nat): nat
  {
    if n > 0 then n - 1 else 0
  }

  /** np.setxor1d(outer, inner): the pixels in exactly one of the two discs. */
  function Ring(inner: set<nat>, outer: set<nat>): (r: set<nat>)
    ensures forall p :: p in r <==> (p in outer) != (p in inner)
  {
    (outer - inner) + (inner - outer)
  }

  /** The ring of bin k: between the k-th and the (k+1)-th threshold. */
  function BinRing(discs: seq<set<nat>>, k: nat): set<nat>
    requires k + 1 < |discs|
  {
    Ring(discs[k], discs[k + 1])
  }

  /** For nested discs the symmetric difference is the annulus outer minus inner. */
  lemma RingOfNestedDiscs(inner: set<nat>, outer: set<nat>)
    requires inner <= outer
    ensures Ring(inner, outer) == outer - inner
    ensures |Ring(inner, outer)| == |outer| - |inner|
  {
    assert outer == inner + (outer - inner);
  }

  /** Each disc contains the previous one (strictly increasing thresholds, consistent queries). */
  ghost predicate Nested(discs: seq<set<nat>>)
  {
    forall k :: 0 <= k < |discs| - 1 ==> discs[k] <= discs[k + 1]
  }

  lemma {:induction false} NestedMonotone(discs: seq<set<nat>>, k: nat, l: nat)
    requires Nested(discs) && k <= l < |discs|
    ensures discs[k] <= discs[l]
    decreases l - k
  {
    if k < l {
      NestedMonotone(discs, k + 1, l);
    }
  }

  /** The rings of two different bins share no pixel. */
  lemma RingsDisjoint(discs: seq<set<nat>>, k: nat, l: nat)
    requires Nested(discs) && k < l && l + 1 < |discs|
    ensures BinRing(discs, k) * BinRing(discs, l) == {}
  {
    NestedMonotone(discs, k + 1, l);
    RingOfNestedDiscs(discs[k], discs[k + 1]);
    RingOfNestedDiscs(discs[l], discs[l + 1]);
  }

  /** Union of the rings of the first `n` bins. */
  function RingUnion(discs: seq<set<nat>>, n: nat): set<nat>
    requires n < |discs|
  {
    if n == 0 then {} else RingUnion(discs, n - 1) + BinRing(discs, n - 1)
  }

  /** Total size of the rings of the first `n` bins. */
  function RingSizes(discs: seq<set<nat>>, n: nat): nat
    requires n < |discs|
  {
    if n == 0 then 0 else RingSizes(discs, n - 1) + |BinRing(discs, n - 1)|
  }

  /**
   * The rings partition the outermost disc minus the innermost one: their
   * union is that difference and their sizes add up to its size.
   */
  lemma {:induction false} RingsCoverOuterDisc(discs: seq<set<nat>>, n: nat)
    requires Nested(discs) && n < |discs|
    ensures RingUnion(discs, n) == discs[n] - discs[0]
    ensures RingSizes(discs, n) == |discs[n]| - |discs[0]|
  {
    if n > 0 {
      RingsCoverOuterDisc(discs, n - 1);
      NestedMonotone(discs, 0, n - 1);
      NestedMonotone(discs, 0, n);
      RingOfNestedDiscs(discs[n - 1], discs[n]);
      RingOfNestedDiscs(discs[0], discs[n - 1]);
      RingOfNestedDiscs(discs[0], discs[n]);
    }
  }

  /**
   * Sum of the pixels p < n of `v` that lie in `ring` and above the sentinel;
   * it is 0 when no such pixel exists.
   */
  function RingSum(v: seq<real>, ring: set<nat>, n: nat): (r: real)
    requires n <= |v|
    ensures RingCount(v, ring, n) == 0 ==> r == 0.0
  {
    if n == 0 then 0.0
    else RingSum(v, ring, n - 1) + (if n - 1 in ring && v[n - 1] > Unseen then v[n - 1] else 0.0)
  }

  /** Number of the pixels p < n of `v` that lie in `ring` and above the sentinel. */
  function RingCount(v: seq<real>, ring: set<nat>, n: nat): (c: nat)
    requires n <= |v|
    ensures c <= n
  {
    if n == 0 then 0
    else RingCount(v, ring, n - 1) + (if n - 1 in ring && v[n - 1] > Unseen then 1 else 0)
  }

  /** The entry of bin k for seed pixel `seed`: v[seed] times the ring sum of `v`. */
  function SeedRingProduct(v: seq<real>, seed: nat, discs: seq<set<nat>>, k: nat): real
    requires seed < |v| && k + 1 < |discs|
  {
    v[seed] * RingSum(v, BinRing(discs, k), |v|)
  }

  /** The pixels p < n of `ring` at which `v` is above the sentinel. */
  ghost function UnmaskedRing(v: seq<real>, ring: set<nat>, n: nat): set<nat>
    requires n <= |v|
  {
    set p | p in ring && p < n && v[p] > Unseen
  }

  /** `counts` is the size of the unmasked part of the ring. */
  lemma {:induction false} RingCountIsUnmaskedRingSize(v: seq<real>, ring: set<nat>, n: nat)
    requires n <= |v|
    ensures RingCount(v, ring, n) == |UnmaskedRing(v, ring, n)|
  {
    if n > 0 {
      RingCountIsUnmaskedRingSize(v, ring, n - 1);
      var m := n - 1;
      if m in ring && v[m] > Unseen {
        assert UnmaskedRing(v, ring, n) == UnmaskedRing(v, ring, m) + {m};
      } else {
        assert UnmaskedRing(v, ring, n) == UnmaskedRing(v, ring, m);
      }
    }
  }

  /**
   * `counts` never exceeds the ring size, and equals it exactly when every
   * ring pixel is above the sentinel.
   */
  lemma RingCountBound(v: seq<real>, ring: set<nat>)
    requires forall p :: p in ring ==> p < |v|
    ensures RingCount(v, ring, |v|) <= |ring|
    ensures RingCount(v, ring, |v|) == |ring| <==> forall p :: p in ring ==> v[p] > Unseen
  {
    RingCountIsUnmaskedRingSize(v, ring, |v|);
    var u := UnmaskedRing(v, ring, |v|);
    assert ring == u + (ring - u);
    if RingCount(v, ring, |v|) == |ring| {
      assert ring - u == {};
      forall p | p in ring ensures v[p] > Unseen {
        assert p in u;
      }
    }
    if forall p :: p in ring ==> v[p] > Unseen {
      assert ring - u == {};
    }
  }

  /** Two maps with the same sentinel pattern have the same ring counts. */
  lemma {:induction false} SameMaskSameCount(v: seq<real>, w: seq<real>, ring: set<nat>, n: nat)
    requires n <= |v| && n <= |w|
    requires forall p :: 0 <= p < n ==> (v[p] > Unseen <==> w[p] > Unseen)
    ensures RingCount(v, ring, n) == RingCount(w, ring, n)
  {
    if n > 0 {
      SameMaskSameCount(v, w, ring, n - 1);
    }
  }

  /** The three per-bin lists csi_compute returns for one seed pixel. */
  datatype PixelResult = PixelResult(dIij: seq<seq<real>>, counts: seq<seq<nat>>, rij: seq<seq<real>>)

  /** What csi_compute returns for the seed pixel `seed`: one single-entry list per bin. */
  ghost predicate IsPixelResult(p: PixelResult, seed: nat, discs: seq<set<nat>>, dI: seq<real>, r: seq<real>)
    requires seed < |dI| && seed < |r|
  {
    && |p.dIij| == |p.counts| == |p.rij| == NumBins(|discs|)
    && (forall k :: 0 <= k < NumBins(|discs|) ==> p.dIij[k] == [SeedRingProduct(dI, seed, discs, k)])
    && (forall k :: 0 <= k < NumBins(|discs|) ==> p.counts[k] == [RingCount(dI, BinRing(discs, k), |dI|)])
    && (forall k :: 0 <= k < NumBins(|discs|) ==> p.rij[k] == [SeedRingProduct(r, seed, discs, k)])
  }

  /** Every pixel a disc query returns is a pixel of a map of `npix` pixels. */
  ghost predicate DiscsWithin(discs: seq<set<nat>>, npix: nat)
  {
    forall k, p :: 0 <= k < |discs| && p in discs[k] ==> p < npix
  }

  /**
   * csi_compute for seed pixel `seed`: the lists start as one empty list per
   * bin and each bin's list receives its one entry; `counts` is taken from dI
   * alone, while the R sum filters R by its own sentinel test.
   */
  method CsiCompute(seed: nat, discs: seq<set<nat>>, dI: seq<real>, r: seq<real>) returns (res: PixelResult)
    requires seed < |dI| && seed < |r|
    requires DiscsWithin(discs, |dI|) && DiscsWithin(discs, |r|)
    ensures IsPixelResult(res, seed, discs, dI, r)
  {
    var nb := NumBins(|discs|);
    var dIi := dI[seed];
    var ri := r[seed];
    var dIijList: seq<seq<real>> := seq(nb, _ => []);
    var countsList: seq<seq<nat>> := seq(nb, _ => []);
    var rijList: seq<seq<real>> := seq(nb, _ => []);
    for th := 0 to nb
      invariant |dIijList| == |countsList| == |rijList| == nb
      invariant forall k :: th <= k < nb ==> dIijList[k] == [] && countsList[k] == [] && rijList[k] == []
      invariant forall k :: 0 <= k < th ==> dIijList[k] == [SeedRingProduct(dI, seed, discs, k)]
      invariant forall k :: 0 <= k < th ==> countsList[k] == [RingCount(dI, BinRing(discs, k), |dI|)]
      invariant forall k :: 0 <= k < th ==> rijList[k] == [SeedRingProduct(r, seed, discs, k)]
    {
      var pixInToRadMin := discs[th];
      var pixInToRadMax := discs[th + 1];
      var pixInToRing := Ring(pixInToRadMin, pixInToRadMax);
      assert pixInToRing == BinRing(discs, th);
      var dISum := RingSum(dI, pixInToRing, |dI|);
      var rSum := RingSum(r, pixInToRing, |r|);
      assert dISum == RingSum(dI, BinRing(discs, th), |dI|);
      assert rSum == RingSum(r, BinRing(discs, th), |r|);
      var dIij := dIi * dISum;
      var rij := ri * rSum;
      assert dIij == SeedRingProduct(dI, seed, discs, th);
      assert rij == SeedRingProduct(r, seed, discs, th);
      var counts := RingCount(dI, pixInToRing, |dI|);
      dIijList := dIijList[th := dIijList[th] + [dIij]];
      countsList := countsList[th := countsList[th] + [counts]];
      rijList := rijList[th := rijList[th] + [rij]];
    }
    res := PixelResult(dIijList, countsList, rijList);
  }
}
