/** What `mergeSort` in wikisort.go computes, as functions on sequences of
    ints, and the properties that make it a sort. */
module SortSpec {

  /** Every element is at most every later element. */
  predicate Sorted(s: seq<int>) {
    forall i, j :: 0 <= i < j < |s| ==> s[i] <= s[j]
  }

  /** The merge loop of wikisort.go from the point where `l` elements of the
      left half xs (held in the cache) and `k` elements of the right half ys
      have been taken: compare the next of each, take the left one when it
      is not greater (so ties go to the left half), and when one half runs
      out, the rest of the other follows. */
  function MergeFrom(xs: seq<int>, ys: seq<int>, l: nat, k: nat): (r: seq<int>)
    requires l <= |xs| && k <= |ys|
    ensures |r| == (|xs| - l) + (|ys| - k)
    decreases (|xs| - l) + (|ys| - k)
  {
    if l == |xs| then ys[k..]
    else if k == |ys| then xs[l..]
    else if xs[l] <= ys[k] then [xs[l]] + MergeFrom(xs, ys, l + 1, k)
    else [ys[k]] + MergeFrom(xs, ys, l, k + 1)
  }

  /** The whole merge of two halves. */
  function Merge(xs: seq<int>, ys: seq<int>): seq<int>
  {
    MergeFrom(xs, ys, 0, 0)
  }

  /** Lines 113-133 on values: halves already in order (the last of the left
      at most the first of the right) stay as they are, otherwise they are
      merged. */
  function Combine(left: seq<int>, right: seq<int>): (r: seq<int>)
    requires left != [] && right != []
    ensures |r| == |left| + |right|
  {
    if left[|left| - 1] <= right[0] then left + right else Merge(left, right)
  }

  /** What mergeSort does to the values of a slice: sort both halves, then
      combine them. */
  function MergeSortSeq(s: seq<int>): (r: seq<int>)
    ensures |r| == |s|
    decreases |s|
  {
    if |s| < 2 then s
    else Combine(MergeSortSeq(s[..|s| / 2]), MergeSortSeq(s[|s| / 2..]))
  }

  /** Merging loses, duplicates and invents nothing. */
  lemma {:induction false} MergeFromPermutation(xs: seq<int>, ys: seq<int>, l: nat, k: nat)
    requires l <= |xs| && k <= |ys|
    ensures multiset(MergeFrom(xs, ys, l, k)) == multiset(xs[l..]) + multiset(ys[k..])
    decreases (|xs| - l) + (|ys| - k)
  {
    if l < |xs| && k < |ys| {
      if xs[l] <= ys[k] {
        assert MergeFrom(xs, ys, l, k) == [xs[l]] + MergeFrom(xs, ys, l + 1, k);
        MergeFromPermutation(xs, ys, l + 1, k);
        MultisetOfSuffix(xs, l);
      } else {
        assert MergeFrom(xs, ys, l, k) == [ys[k]] + MergeFrom(xs, ys, l, k + 1);
        MergeFromPermutation(xs, ys, l, k + 1);
        MultisetOfSuffix(ys, k);
      }
    }
  }

  /** A suffix holds its first element and the suffix after it. */
  lemma MultisetOfSuffix(s: seq<int>, i: nat)
    requires i < |s|
    ensures multiset(s[i..]) == multiset{s[i]} + multiset(s[i + 1..])
  {
    assert s[i..] == [s[i]] + s[i + 1..];
  }

  /** Merging two sorted sequences gives a sorted sequence. */
  lemma {:induction false} MergeFromSorted(xs: seq<int>, ys: seq<int>, l: nat, k: nat)
    requires l <= |xs| && k <= |ys|
    requires Sorted(xs) && Sorted(ys)
    ensures Sorted(MergeFrom(xs, ys, l, k))
    decreases (|xs| - l) + (|ys| - k)
  {
    if l < |xs| && k < |ys| {
      if xs[l] <= ys[k] {
        MergeFromSorted(xs, ys, l + 1, k);
        MergeFromHead(xs, ys, l + 1, k);
        SortedPrepend(xs[l], MergeFrom(xs, ys, l + 1, k));
      } else {
        MergeFromSorted(xs, ys, l, k + 1);
        MergeFromHead(xs, ys, l, k + 1);
        SortedPrepend(ys[k], MergeFrom(xs, ys, l, k + 1));
      }
    }
  }

  /** The first element of a merge is the next element of one of the halves. */
  lemma MergeFromHead(xs: seq<int>, ys: seq<int>, l: nat, k: nat)
    requires l <= |xs| && k <= |ys| && (l < |xs| || k < |ys|)
    ensures var r := MergeFrom(xs, ys, l, k);
      (l < |xs| && r[0] == xs[l]) || (k < |ys| && r[0] == ys[k])
  {
  }

  /** An element at most the head of a sorted sequence can go in front of it. */
  lemma SortedPrepend(x: int, s: seq<int>)
    requires Sorted(s) && (s == [] || x <= s[0])
    ensures Sorted([x] + s)
  {
  }

  /** The early exit of line 113 is sound: when the halves are sorted and
      already in order, merging them gives their concatenation. */
  lemma {:induction false} MergeFromInOrder(xs: seq<int>, ys: seq<int>, l: nat)
    requires l <= |xs| && Sorted(xs) && Sorted(ys)
    requires xs != [] && ys != [] && xs[|xs| - 1] <= ys[0]
    ensures MergeFrom(xs, ys, l, 0) == xs[l..] + ys
    decreases |xs| - l
  {
    if l < |xs| {
      assert xs[l] <= ys[0];
      MergeFromInOrder(xs, ys, l + 1);
      assert xs[l..] == [xs[l]] + xs[l + 1..];
    }
  }

  /** Sorted halves in order form a sorted whole. */
  lemma SortedConcat(xs: seq<int>, ys: seq<int>)
    requires Sorted(xs) && Sorted(ys)
    requires xs != [] && ys != [] && xs[|xs| - 1] <= ys[0]
    ensures Sorted(xs + ys)
  {
  }

  /** mergeSort sorts: its result is sorted and a permutation of its input. */
  lemma {:induction false} MergeSortSeqCorrect(s: seq<int>)
    ensures Sorted(MergeSortSeq(s))
    ensures multiset(MergeSortSeq(s)) == multiset(s)
    decreases |s|
  {
    if |s| >= 2 {
      var mid := |s| / 2;
      MergeSortSeqCorrect(s[..mid]);
      MergeSortSeqCorrect(s[mid..]);
      assert s == s[..mid] + s[mid..];
      CombineCorrect(MergeSortSeq(s[..mid]), MergeSortSeq(s[mid..]));
    }
  }

  /** Combining two sorted halves gives a sorted permutation of both. */
  lemma CombineCorrect(left: seq<int>, right: seq<int>)
    requires left != [] && right != [] && Sorted(left) && Sorted(right)
    ensures Sorted(Combine(left, right))
    ensures multiset(Combine(left, right)) == multiset(left) + multiset(right)
  {
    if left[|left| - 1] <= right[0] {
      SortedConcat(left, right);
    } else {
      MergeFromSorted(left, right, 0, 0);
      MergeFromPermutation(left, right, 0, 0);
    }
  }

  /** Two sorted sequences with the same contents start with the same element:
      the least one. */
  lemma SortedSameHead(s: seq<int>, t: seq<int>)
    requires Sorted(s) && Sorted(t) && multiset(s) == multiset(t) && s != []
    ensures t != [] && s[0] == t[0]
  {
    assert s[0] in multiset(t);
    var i :| 0 <= i < |t| && t[i] == s[0];
    assert t[0] in multiset(s);
    var j :| 0 <= j < |s| && s[j] == t[0];
    assert t[0] <= t[i] && s[0] <= s[j];
  }

  /** A sorted permutation is unique. */
  lemma {:induction false} SortedPermutationUnique(s: seq<int>, t: seq<int>)
    requires Sorted(s) && Sorted(t) && multiset(s) == multiset(t)
    ensures s == t
    decreases |s|
  {
    if s == [] {
      assert |multiset(t)| == 0;
    } else {
      SortedSameHead(s, t);
      assert s == [s[0]] + s[1..];
      assert t == [t[0]] + t[1..];
      assert multiset(s[1..]) == multiset(t[1..]) by {
        assert multiset(s) == multiset{s[0]} + multiset(s[1..]);
        assert multiset(t) == multiset{t[0]} + multiset(t[1..]);
        assert multiset(s[1..]) == multiset(s) - multiset{s[0]};
        assert multiset(t[1..]) == multiset(t) - multiset{t[0]};
      }
      SortedPermutationUnique(s[1..], t[1..]);
    }
  }

  /** Sorting a sorted sequence changes nothing, so sorting twice is sorting once. */
  lemma MergeSortSeqIdempotent(s: seq<int>)
    ensures Sorted(s) ==> MergeSortSeq(s) == s
    ensures MergeSortSeq(MergeSortSeq(s)) == MergeSortSeq(s)
  {
    MergeSortSeqCorrect(s);
    MergeSortSeqCorrect(MergeSortSeq(s));
    if Sorted(s) {
      SortedPermutationUnique(MergeSortSeq(s), s);
    }
    SortedPermutationUnique(MergeSortSeq(MergeSortSeq(s)), MergeSortSeq(s));
  }

  /** One step of the merge loop: the next merged element is the smaller
      head, the left one on a tie, and the rest of the merge carries on from
      there. `merged` is the whole merge, of which l + k elements are done. */
  lemma MergeStep(xs: seq<int>, ys: seq<int>, l: nat, k: nat, merged: seq<int>)
    requires l < |xs| && k < |ys| && l + k <= |merged|
    requires MergeFrom(xs, ys, l, k) == merged[l + k..]
    ensures l + k < |merged|
    ensures xs[l] <= ys[k] ==> merged[l + k] == xs[l] && MergeFrom(xs, ys, l + 1, k) == merged[(l + 1) + k..]
    ensures !(xs[l] <= ys[k]) ==> merged[l + k] == ys[k] && MergeFrom(xs, ys, l, k + 1) == merged[l + (k + 1)..]
  {
    assert merged[l + k..][0] == merged[l + k];
    assert merged[l + k..][1..] == merged[l + k + 1..];
  }

  /** The early exit changes nothing: combining sorted halves is merging them,
      so mergeSort gives the same result as the plain merge sort that always
      merges. */
  lemma CombineIsMerge(left: seq<int>, right: seq<int>)
    requires left != [] && right != [] && Sorted(left) && Sorted(right)
    ensures Combine(left, right) == Merge(left, right)
  {
    if left[|left| - 1] <= right[0] {
      MergeFromInOrder(left, right, 0);
    }
  }
}
