/**
 * permute_unmasked_pix: the values of the pixels above the sentinel are
 * shuffled among those pixels, in place; the other pixels keep their value.
 * The random permutation np.random.permutation draws is a parameter here.
 */
module Permute {
  import opened SkyMaps

  /** The indices 0, 1, ..., n - 1. */
  function Range(n: nat): (r: seq<nat>)
    ensures |r| == n && forall k :: 0 <= k < n ==> r[k] == k
  {
    seq(n, k => k)
  }

  /** `perm` lists each of 0, ..., n - 1 exactly once. */
  predicate IsPermutation(perm: seq<nat>, n: nat)
  {
    && |perm| == n
    && (forall k :: 0 <= k < n ==> perm[k] < n)
    && multiset(perm) == multiset(Range(n))
  }

  /** np.random.permutation(values) for the drawn permutation `perm`. */
  function Shuffle(values: seq<real>, perm: seq<nat>): (r: seq<real>)
    requires IsPermutation(perm, |values|)
    ensures |r| == |values|
  {
    seq(|perm|, k requires 0 <= k < |perm| => values[perm[k]])
  }

  /** Equal multisets stay equal when the same element is taken out of both. */
  lemma MultisetCancel(a: multiset<nat>, b: multiset<nat>, x: nat)
    requires a + multiset{x} == b + multiset{x}
    ensures a == b
  {
    forall y ensures a[y] == b[y] {
      assert (a + multiset{x})[y] == (b + multiset{x})[y];
    }
  }

  /** Taking the last index out of a permutation leaves a permutation of the others. */
  lemma DropLast(perm: seq<nat>, n: nat) returns (j: nat)
    requires IsPermutation(perm, n + 1)
    ensures j < |perm| && perm[j] == n
    ensures IsPermutation(perm[..j] + perm[j + 1..], n)
  {
    assert Range(n + 1)[n] == n;
    assert n in multiset(perm);
    j :| 0 <= j < |perm| && perm[j] == n;
    var rest := perm[..j] + perm[j + 1..];
    assert multiset(rest) == multiset(Range(n)) by {
      assert perm == perm[..j] + [n] + perm[j + 1..];
      assert multiset(perm) == multiset(rest) + multiset{n} by {
        assert multiset(perm) == multiset(perm[..j]) + multiset{n} + multiset(perm[j + 1..]);
      }
      RangeSucc(n);
      MultisetCancel(multiset(rest), multiset(Range(n)), n);
    }
    forall k | 0 <= k < n ensures rest[k] < n {
      assert rest[k] in multiset(rest);
      InRange(rest[k], n);
    }
  }

  lemma RangeSucc(n: nat)
    ensures multiset(Range(n + 1)) == multiset(Range(n)) + multiset{n}
  {
    assert Range(n + 1) == Range(n) + [n];
  }

  lemma InRange(x: nat, n: nat)
    requires x in multiset(Range(n))
    ensures x < n
  {
    assert x in Range(n);
    var i :| 0 <= i < n && Range(n)[i] == x;
  }

  /**
   * Shuffling with a permutation whose entry j is the last index puts the
   * last value at position j and shuffles the others with the remaining entries.
   */
  lemma ShuffleWithLastAt(values: seq<real>, perm: seq<nat>, j: nat)
    requires |values| > 0 && IsPermutation(perm, |values|)
    requires j < |perm| && perm[j] == |values| - 1
    requires IsPermutation(perm[..j] + perm[j + 1..], |values| - 1)
    ensures var sr := Shuffle(values[..|values| - 1], perm[..j] + perm[j + 1..]);
      Shuffle(values, perm) == sr[..j] + [values[|values| - 1]] + sr[j..]
  {
    var n := |values| - 1;
    var rest := perm[..j] + perm[j + 1..];
    var sr := Shuffle(values[..n], rest);
    var s := Shuffle(values, perm);
    forall k | 0 <= k < |s|
      ensures s[k] == (sr[..j] + [values[n]] + sr[j..])[k]
    {
      if k < j {
        assert rest[k] == perm[k];
      } else if k > j {
        assert rest[k - 1] == perm[k];
      }
    }
  }

  /** Shuffling values keeps their multiset. */
  lemma {:induction false} ShufflePreservesMultiset(values: seq<real>, perm: seq<nat>)
    requires IsPermutation(perm, |values|)
    ensures multiset(Shuffle(values, perm)) == multiset(values)
    decreases |values|
  {
    if |values| > 0 {
      var n := |values| - 1;
      var j := DropLast(perm, n);
      var rest := perm[..j] + perm[j + 1..];
      var init := values[..n];
      ShufflePreservesMultiset(init, rest);
      ShuffleWithLastAt(values, perm, j);
      var sr := Shuffle(init, rest);
      assert multiset(Shuffle(values, perm)) == multiset(sr[..j]) + multiset{values[n]} + multiset(sr[j..]);
      assert sr == sr[..j] + sr[j..];
      assert multiset(sr) == multiset(sr[..j]) + multiset(sr[j..]);
      assert values == init + [values[n]];
      assert multiset(values) == multiset(init) + multiset{values[n]};
    }
  }

  /**
   * The array permute_unmasked_pix leaves behind: the pixel whose rank among
   * the pixels above the sentinel is k receives the value of the pixel whose
   * rank is perm[k]; every other pixel keeps its value.
   */
  function PermuteUnmasked(s: seq<real>, perm: seq<nat>): (r: seq<real>)
    requires IsPermutation(perm, |UnmaskedValues(s)|)
    ensures |r| == |s|
  {
    seq(|s|, i requires 0 <= i < |s| =>
      if s[i] > Unseen then
        UnmaskedValueAtRank(s, i);
        Shuffle(UnmaskedValues(s), perm)[Rank(s, i)]
      else s[i])
  }

  /** One pixel of the shuffled array: it is above the sentinel exactly when it was. */
  lemma PermutedPixel(s: seq<real>, perm: seq<nat>, i: nat)
    requires IsPermutation(perm, |UnmaskedValues(s)|)
    requires i < |s|
    ensures s[i] > Unseen ==>
      Rank(s, i) < |perm| && Rank(s, i + 1) == Rank(s, i) + 1 &&
      PermuteUnmasked(s, perm)[i] == Shuffle(UnmaskedValues(s), perm)[Rank(s, i)] &&
      PermuteUnmasked(s, perm)[i] > Unseen
    ensures !(s[i] > Unseen) ==>
      Rank(s, i + 1) == Rank(s, i) && PermuteUnmasked(s, perm)[i] == s[i]
  {
    if s[i] > Unseen {
      UnmaskedValueAtRank(s, i);
      var r := Rank(s, i);
      assert Shuffle(UnmaskedValues(s), perm)[r] == UnmaskedValues(s)[perm[r]];
    }
  }

  /** Reading the shuffled array in pixel order gives the shuffled values. */
  lemma {:induction false} PermutedPrefix(s: seq<real>, perm: seq<nat>, j: nat)
    requires IsPermutation(perm, |UnmaskedValues(s)|)
    requires j <= |s|
    ensures Rank(s, j) <= |perm|
    ensures UnmaskedValues(PermuteUnmasked(s, perm)[..j]) == Shuffle(UnmaskedValues(s), perm)[..Rank(s, j)]
  {
    var t := PermuteUnmasked(s, perm);
    var sh := Shuffle(UnmaskedValues(s), perm);
    if j == 0 {
      assert t[..0] == [];
      assert s[..0] == [];
    } else {
      var i := j - 1;
      PermutedPrefix(s, perm, i);
      PermutedPixel(s, perm, i);
      assert t[..j][..i] == t[..i];
      assert UnmaskedValues(t[..j]) ==
        UnmaskedValues(t[..i]) + (if t[i] > Unseen then [t[i]] else []);
      if s[i] > Unseen {
        assert sh[..Rank(s, i) + 1] == sh[..Rank(s, i)] + [sh[Rank(s, i)]];
      }
    }
  }

  /**
   * What permute_unmasked_pix promises: the sentinel pattern is unchanged,
   * no pixel at or below the sentinel changes, and the values above it are
   * the same multiset as before.
   */
  lemma PermutePreservesUnmaskedMultiset(s: seq<real>, perm: seq<nat>)
    requires IsPermutation(perm, |UnmaskedValues(s)|)
    ensures forall i :: 0 <= i < |s| ==>
      (PermuteUnmasked(s, perm)[i] > Unseen <==> s[i] > Unseen)
    ensures forall i :: 0 <= i < |s| && !(s[i] > Unseen) ==>
      PermuteUnmasked(s, perm)[i] == s[i]
    ensures UnmaskedValues(PermuteUnmasked(s, perm)) == Shuffle(UnmaskedValues(s), perm)
    ensures multiset(UnmaskedValues(PermuteUnmasked(s, perm))) == multiset(UnmaskedValues(s))
  {
    var t := PermuteUnmasked(s, perm);
    forall i | 0 <= i < |s|
      ensures (t[i] > Unseen <==> s[i] > Unseen)
      ensures !(s[i] > Unseen) ==> t[i] == s[i]
    {
      PermutedPixel(s, perm, i);
    }
    PermutedPrefix(s, perm, |s|);
    RankCountsPrefix(s, |s|);
    assert t[..|s|] == t;
    assert s[..|s|] == s;
    ShufflePreservesMultiset(UnmaskedValues(s), perm);
  }

  /** Every entry of `idx` is a pixel before `i` above the sentinel, and the k-th has rank k. */
  ghost predicate RankedMembers(s: seq<real>, idx: seq<nat>, i: nat)
    requires i <= |s|
  {
    forall k :: 0 <= k < |idx| ==> idx[k] < i && s[idx[k]] > Unseen && Rank(s, idx[k]) == k
  }

  /** Every pixel before `i` above the sentinel sits in `idx` at its rank. */
  ghost predicate RankedComplete(s: seq<real>, idx: seq<nat>, i: nat)
    requires i <= |s|
  {
    forall j {:trigger Rank(s, j)} :: 0 <= j < i && s[j] > Unseen ==> Rank(s, j) < |idx| && idx[Rank(s, j)] == j
  }

  ghost predicate Increasing(idx: seq<nat>)
  {
    forall k, l :: 0 <= k < l < |idx| ==> idx[k] < idx[l]
  }

  /**
   * `idx` lists, in increasing order, the pixels before `i` that lie above
   * the sentinel; the k-th of them has rank k.
   */
  ghost predicate IndexesUpTo(s: seq<real>, idx: seq<nat>, i: nat)
    requires i <= |s|
  {
    && |idx| == Rank(s, i)
    && RankedMembers(s, idx, i)
    && Increasing(idx)
    && RankedComplete(s, idx, i)
  }

  function Extend(s: seq<real>, idx: seq<nat>, i: nat): seq<nat>
    requires i < |s|
  {
    if s[i] > Unseen then idx + [i] else idx
  }

  lemma RankedMembersNext(s: seq<real>, idx: seq<nat>, i: nat)
    requires i < |s| && |idx| == Rank(s, i) && RankedMembers(s, idx, i)
    ensures RankedMembers(s, Extend(s, idx, i), i + 1)
  {
    var next := Extend(s, idx, i);
    forall k | 0 <= k < |next|
      ensures next[k] < i + 1 && s[next[k]] > Unseen && Rank(s, next[k]) == k
    {
      if k < |idx| {
        assert next[k] == idx[k];
      }
    }
  }

  lemma IncreasingNext(s: seq<real>, idx: seq<nat>, i: nat)
    requires i < |s| && RankedMembers(s, idx, i) && Increasing(idx)
    ensures Increasing(Extend(s, idx, i))
  {
  }

  lemma RankedCompleteNext(s: seq<real>, idx: seq<nat>, i: nat)
    requires i < |s| && |idx| == Rank(s, i) && RankedComplete(s, idx, i)
    ensures RankedComplete(s, Extend(s, idx, i), i + 1)
  {
    var next := Extend(s, idx, i);
    forall j | 0 <= j < i + 1 && s[j] > Unseen
      ensures Rank(s, j) < |next| && next[Rank(s, j)] == j
    {
      if j < i {
        var r := Rank(s, j);
        assert r < |idx| && idx[r] == j;
        assert next[r] == idx[r];
      }
    }
  }

  lemma IndexesUpToNext(s: seq<real>, idx: seq<nat>, i: nat)
    requires i < |s| && IndexesUpTo(s, idx, i)
    ensures IndexesUpTo(s, Extend(s, idx, i), i + 1)
  {
    RankedMembersNext(s, idx, i);
    IncreasingNext(s, idx, i);
    RankedCompleteNext(s, idx, i);
  }

  lemma IndexesAll(s: seq<real>, idx: seq<nat>)
    requires IndexesUpTo(s, idx, |s|)
    ensures |idx| == |UnmaskedValues(s)|
    ensures forall k :: 0 <= k < |idx| ==>
      idx[k] < |s| && s[idx[k]] == UnmaskedValues(s)[k] && Rank(s, idx[k]) == k
  {
    RankCountsPrefix(s, |s|);
    assert s[..|s|] == s;
    forall k | 0 <= k < |idx|
      ensures s[idx[k]] == UnmaskedValues(s)[k]
    {
      UnmaskedValueAtRank(s, idx[k]);
    }
  }

  /**
   * unfrozen_indices: the pixels above the sentinel, in increasing order;
   * the k-th of them has rank k and holds the k-th value above the sentinel.
   */
  method UnfrozenIndices(a: array<real>) returns (idx: seq<nat>)
    ensures |idx| == |UnmaskedValues(a[..])|
    ensures forall k :: 0 <= k < |idx| ==>
      idx[k] < a.Length && a[idx[k]] == UnmaskedValues(a[..])[k] && Rank(a[..], idx[k]) == k
    ensures forall k, l :: 0 <= k < l < |idx| ==> idx[k] < idx[l]
    ensures forall i :: 0 <= i < a.Length && a[i] > Unseen ==>
      Rank(a[..], i) < |idx| && idx[Rank(a[..], i)] == i
  {
    ghost var s := a[..];
    idx := [];
    for i := 0 to a.Length
      invariant IndexesUpTo(s, idx, i)
    {
      ghost var idx0 := idx;
      IndexesUpToNext(s, idx, i);
      if a[i] > Unseen {
        idx := idx + [i];
      }
      assert idx == Extend(s, idx0, i);
    }
    IndexesAll(s, idx);
  }

  /**
   * permute_unmasked_pix: shuffles the pixels above the sentinel in place
   * with the drawn permutation and returns the same array.
   */
  method PermuteUnmaskedPix(a: array<real>, perm: seq<nat>) returns (r: array<real>)
    requires IsPermutation(perm, |UnmaskedValues(a[..])|)
    modifies a
    ensures r == a
    ensures a[..] == PermuteUnmasked(old(a[..]), perm)
  {
    ghost var s := a[..];
    var idx := UnfrozenIndices(a);
    var unfrozen := seq(|idx|, k requires 0 <= k < |idx| reads a => a[idx[k]]);
    assert unfrozen == UnmaskedValues(s);
    var shuffled := Shuffle(unfrozen, perm);
    assert |shuffled| == |idx|;
    for k := 0 to |idx|
      invariant forall i :: 0 <= i < a.Length ==>
        a[i] == if s[i] > Unseen && Rank(s, i) < k then shuffled[Rank(s, i)] else s[i]
    {
      ghost var before := a[..];
      var p := idx[k];
      a[p] := shuffled[k];
      forall i | 0 <= i < a.Length
        ensures a[i] == if s[i] > Unseen && Rank(s, i) < k + 1 then shuffled[Rank(s, i)] else s[i]
      {
        assert s[i] > Unseen && Rank(s, i) == k ==> i == p;
        if i != p {
          assert a[i] == before[i];
        }
      }
    }
    r := a;
    assert forall i :: 0 <= i < a.Length ==> a[i] == PermuteUnmasked(s, perm)[i];
  }
}
