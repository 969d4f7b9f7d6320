/**
 * HEALPix sky maps as the analysis scripts see them: a sequence of pixel
 * values in which the sentinel `Unseen` marks a masked pixel, together with
 * the mask-derived quantities both scripts compute from it (the unmask index
 * set, the sky fraction, the fluctuation map) and numpy's float division.
 */
module SkyMaps {

  /** healpy's sentinel for a masked pixel, hp.UNSEEN. */
  const Unseen: real := -1.6375e30

  /** numpy's float division: a zero denominator gives nan or an infinity, never an exception. */
  datatype Quotient = Finite(value: real) | NaN | PosInf | NegInf

  function Divide(a: real, b: real): (q: Quotient)
    ensures q.Finite? <==> b != 0.0
    ensures q.Finite? ==> q.value * b == a
    ensures q == NaN <==> a == 0.0 && b == 0.0
  {
    if b != 0.0 then Finite(a / b)
    else if a == 0.0 then NaN
    else if a > 0.0 then PosInf
    else NegInf
  }

  /**
   * The values of `s` that lie above the sentinel, in pixel order: the test
   * `val > hp.UNSEEN` that permute_unmasked_pix and csi_compute apply.
   */
  function UnmaskedValues(s: seq<real>): (r: seq<real>)
    ensures |r| <= |s|
    ensures forall k :: 0 <= k < |r| ==> r[k] > Unseen
  {
    if s == [] then []
    else UnmaskedValues(s[..|s| - 1]) + (if s[|s| - 1] > Unseen then [s[|s| - 1]] else [])
  }

  /** Number of pixels before `i` that lie above the sentinel. */
  function Rank(s: seq<real>, i: nat): nat
    requires i <= |s|
  {
    if i == 0 then 0 else Rank(s, i - 1) + (if s[i - 1] > Unseen then 1 else 0)
  }

  lemma {:induction false} UnmaskedValuesAppend(a: seq<real>, b: seq<real>)
    ensures UnmaskedValues(a + b) == UnmaskedValues(a) + UnmaskedValues(b)
    decreases |b|
  {
    if b == [] {
      assert a + b == a;
    } else {
      var c := b[..|b| - 1];
      assert (a + b)[..|a + b| - 1] == a + c;
      UnmaskedValuesAppend(a, c);
    }
  }

  /** The rank of pixel `i` is the number of values above the sentinel read before it. */
  lemma {:induction false} RankCountsPrefix(s: seq<real>, i: nat)
    requires i <= |s|
    ensures Rank(s, i) == |UnmaskedValues(s[..i])|
  {
    if i == 0 {
      assert s[..0] == [];
    } else {
      RankCountsPrefix(s, i - 1);
      assert s[..i][..i - 1] == s[..i - 1];
    }
  }

  /** The k-th value above the sentinel is the one at the pixel whose rank is k. */
  lemma UnmaskedValueAtRank(s: seq<real>, i: nat)
    requires i < |s| && s[i] > Unseen
    ensures Rank(s, i) < |UnmaskedValues(s)|
    ensures UnmaskedValues(s)[Rank(s, i)] == s[i]
  {
    RankCountsPrefix(s, i);
    assert s == s[..i] + [s[i]] + s[i + 1..];
    assert s[..i + 1] == s[..i] + [s[i]];
    UnmaskedValuesAppend(s[..i], [s[i]]);
    UnmaskedValuesAppend(s[..i] + [s[i]], s[i + 1..]);
    assert UnmaskedValues([s[i]]) == [s[i]] by {
      assert [s[i]][..0] == [];
    }
  }

  /**
   * np.where(m != hp.UNSEEN)[0]: the sorted indices of the pixels that are
   * not the sentinel (mkcsi.py's `_unmask`, mkanalysis.py's `_index`).
   */
  function UnmaskIndices(s: seq<real>): (r: seq<nat>)
    ensures |r| <= |s|
    ensures forall k :: 0 <= k < |r| ==> r[k] < |s|
  {
    if s == [] then []
    else
      var n := |s| - 1;
      UnmaskIndices(s[..n]) + (if s[n] != Unseen then [n] else [])
  }

  /**
   * The unmask index set lists, in strictly increasing order, exactly the
   * pixels that are not the sentinel.
   */
  lemma {:induction false} UnmaskIndicesExact(s: seq<real>)
    ensures forall k :: 0 <= k < |UnmaskIndices(s)| ==> s[UnmaskIndices(s)[k]] != Unseen
    ensures forall k, l :: 0 <= k < l < |UnmaskIndices(s)| ==> UnmaskIndices(s)[k] < UnmaskIndices(s)[l]
    ensures forall i :: 0 <= i < |s| && s[i] != Unseen ==> i in UnmaskIndices(s)
  {
    if s != [] {
      var n := |s| - 1;
      UnmaskIndicesExact(s[..n]);
      assert forall i :: 0 <= i < n ==> s[..n][i] == s[i];
    }
  }

  /** Number of pixels equal to the sentinel. */
  function CountUnseen(s: seq<real>): (c: nat)
    ensures c <= |s|
    ensures c == 0 <==> forall i :: 0 <= i < |s| ==> s[i] != Unseen
  {
    if s == [] then 0
    else CountUnseen(s[..|s| - 1]) + (if s[|s| - 1] == Unseen then 1 else 0)
  }

  /** Every pixel is either in the unmask index set or is the sentinel. */
  lemma {:induction false} UnmaskSplitsPixels(s: seq<real>)
    ensures |UnmaskIndices(s)| + CountUnseen(s) == |s|
  {
    if s != [] {
      UnmaskSplitsPixels(s[..|s| - 1]);
    }
  }

  /**
   * mkCsi's sky fraction `1 - #UNSEEN / npix`: it lies in [0, 1] and is the
   * share of pixels in the unmask index set.
   */
  function Fsky(s: seq<real>): (f: real)
    requires |s| > 0
    ensures 0.0 <= f <= 1.0
    ensures f == |UnmaskIndices(s)| as real / |s| as real
    ensures f == 1.0 <==> CountUnseen(s) == 0
  {
    UnmaskSplitsPixels(s);
    ShareOfPixels(|UnmaskIndices(s)|, CountUnseen(s), |s|);
    1.0 - CountUnseen(s) as real / |s| as real
  }

  lemma ShareOfPixels(u: nat, c: nat, n: nat)
    requires u + c == n && n > 0
    ensures 1.0 - c as real / n as real == u as real / n as real
    ensures 0.0 <= u as real / n as real <= 1.0
    ensures u as real / n as real == 1.0 <==> c == 0
  {
    var N := n as real;
    DivideSum(u as real, c as real, N);
    assert (u as real + c as real) / N == 1.0;
    DivideBounds(u as real, N);
    DivideBounds(c as real, N);
  }

  lemma DivideSum(a: real, b: real, n: real)
    requires n > 0.0
    ensures a / n + b / n == (a + b) / n
  {
  }

  lemma DivideBounds(a: real, n: real)
    requires 0.0 <= a <= n && n > 0.0
    ensures 0.0 <= a / n <= 1.0
    ensures a / n == 1.0 <==> a == n
    ensures a / n == 0.0 <==> a == 0.0
  {
  }

  /**
   * `map - Imean` over floats: a pixel at the sentinel stays at the sentinel,
   * because UNSEEN lies in [2^100, 2^101) in magnitude, where one double ulp
   * is 2^48, so UNSEEN - Imean rounds back to UNSEEN whenever |Imean| < 2^47
   * (about 1.4e14), as any mean flux is; every other pixel becomes its
   * fluctuation around the mean.
   */
  function Fluctuation(s: seq<real>, mean: real): (d: seq<real>)
    ensures |d| == |s|
    ensures forall i :: 0 <= i < |s| && s[i] == Unseen ==> d[i] == Unseen
    ensures forall i :: 0 <= i < |s| && s[i] != Unseen ==> d[i] + mean == s[i]
  {
    seq(|s|, i requires 0 <= i < |s| => if s[i] == Unseen then Unseen else s[i] - mean)
  }
}
