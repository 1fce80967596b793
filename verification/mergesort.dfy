/** Model of `mergeSort` in wikisort.go: a top-down merge sort over a slice of
    ints that copies the left half into a shared cache and merges the cache
    with the right half back into the slice.

    A slice is the index range [lo, hi) of an array, and the package-level
    cache is a second array passed in.  Each method is proved against the
    functions of SortSpec.  The merge reads `cache[l]` on line 120 where the
    source reads `cache[i]`; the code as written is modelled separately, by
    MergeLoopAsWritten. */
module MergeSorting {
  import opened SortSpec

  /** Go's built-in `copy` of n elements from src[from..] to dst[to..]. */
  method Copy(src: array<int>, from: int, dst: array<int>, to: int, n: int)
    requires 0 <= n && 0 <= from && from + n <= src.Length && 0 <= to && to + n <= dst.Length
    requires src != dst
    modifies dst
    ensures forall k :: to <= k < to + n ==> dst[k] == src[from + (k - to)]
    ensures forall k :: 0 <= k < dst.Length && !(to <= k < to + n) ==> dst[k] == old(dst[k])
  {
    var j := 0;
    while j < n
      invariant 0 <= j <= n
      invariant forall k :: to <= k < to + j ==> dst[k] == src[from + (k - to)]
      invariant forall k :: 0 <= k < dst.Length && !(to <= k < to + j) ==> dst[k] == old(dst[k])
    {
      dst[to + j] := src[from + j];
      j := j + 1;
    }
  }

  /** A slice is known once its first part is known position by position and
      the rest is a known run of some sequence. */
  lemma Assemble(s: seq<int>, lo: int, j: int, hi: int, whole: seq<int>, rest: seq<int>, off: int)
    requires 0 <= lo <= j <= hi <= |s| && |whole| == hi - lo
    requires 0 <= off && off + (hi - j) == |rest|
    requires forall k :: lo <= k < j ==> s[k] == whole[k - lo]
    requires forall k :: j <= k < hi ==> s[k] == rest[off + (k - j)]
    requires rest[off..] == whole[j - lo..]
    ensures s[lo..hi] == whole
  {
    forall k | lo <= k < hi
      ensures s[k] == whole[k - lo]
    {
      if k >= j {
        assert rest[off..][k - j] == whole[j - lo..][k - j];
      }
    }
  }

  /** Lines 116-133: copy the left half [lo, mid) into the cache, then merge
      cache and right half [mid, hi) back into [lo, hi). */
  method MergeHalves(a: array<int>, lo: int, mid: int, hi: int, cache: array<int>)
    requires 0 <= lo < mid < hi <= a.Length
    requires mid - lo <= cache.Length && a != cache
    modifies a, cache
    ensures a[lo..hi] == Merge(old(a[lo..mid]), old(a[mid..hi]))
    ensures forall k :: 0 <= k < a.Length && !(lo <= k < hi) ==> a[k] == old(a[k])
  {
    ghost var left, right := a[lo..mid], a[mid..hi];
    Copy(a, lo, cache, 0, mid - lo);
    assert forall k :: mid <= k < hi ==> a[k] == right[k - mid];
    var l, r, i := MergeRun(a, lo, mid, hi, cache, left, right);
    if r == hi {
      Copy(cache, l, a, i, mid - lo - l);
      Assemble(a[..], lo, i, hi, Merge(left, right), left, l);
    } else {
      Assemble(a[..], lo, i, hi, Merge(left, right), right, r - mid);
    }
  }

  /** Lines 103-135: mergeSort on the slice [lo, hi) of the array, with the
      shared cache. */
  method MergeSort(a: array<int>, lo: int, hi: int, cache: array<int>)
    requires 0 <= lo <= hi <= a.Length
    requires (hi - lo) / 2 <= cache.Length && a != cache
    modifies a, cache
    ensures a[lo..hi] == MergeSortSeq(old(a[lo..hi]))
    ensures forall k :: 0 <= k < a.Length && !(lo <= k < hi) ==> a[k] == old(a[k])
    decreases hi - lo
  {
    if hi - lo < 2 {
      return;
    }
    var mid := lo + (hi - lo) / 2;
    ghost var s0 := a[..];
    ghost var s := s0[lo..hi];
    MergeSort(a, lo, mid, cache);
    ghost var s1 := a[..];
    MergeSort(a, mid, hi, cache);
    ghost var s2 := a[..];
    ghost var left, right := s2[lo..mid], s2[mid..hi];
    Frames(s0, s1, s2, lo, mid, hi);
    SortedHalves(s0, s1, s2, lo, mid, hi);
    assert left[mid - lo - 1] == a[mid - 1] && right[0] == a[mid];
    if a[mid - 1] <= a[mid] {
      assert a[lo..hi] == s2[lo..hi] == left + right;
      return;
    }
    MergeHalves(a, lo, mid, hi, cache);
  }

  /** How mergeSort puts a slice back together after sorting its halves in
      place: s0 is the array before, s1 after sorting the left half, s2 after
      sorting the right half. */
  lemma SortedHalves(s0: seq<int>, s1: seq<int>, s2: seq<int>, lo: int, mid: int, hi: int)
    requires 0 <= lo < mid < hi <= |s0| == |s1| == |s2| && mid == lo + (hi - lo) / 2
    requires s1[lo..mid] == MergeSortSeq(s0[lo..mid]) && s2[mid..hi] == MergeSortSeq(s1[mid..hi])
    requires s0[lo..hi][..mid - lo] == s0[lo..mid] && s0[lo..hi][mid - lo..] == s0[mid..hi]
    requires s1[mid..hi] == s0[mid..hi] && s2[lo..mid] == s1[lo..mid]
    ensures MergeSortSeq(s0[lo..hi]) == Combine(s2[lo..mid], s2[mid..hi])
  {
    var s := s0[lo..hi];
    var h := |s| / 2;
    assert h == mid - lo;
    assert s[..h] == s0[lo..mid] && s[h..] == s0[mid..hi];
    assert MergeSortSeq(s) == Combine(MergeSortSeq(s[..h]), MergeSortSeq(s[h..]));
  }

  /** The frames of the two recursive calls: each changes only its half. */
  lemma Frames(s0: seq<int>, s1: seq<int>, s2: seq<int>, lo: int, mid: int, hi: int)
    requires 0 <= lo < mid < hi <= |s0| == |s1| == |s2|
    requires forall k :: 0 <= k < |s0| && !(lo <= k < mid) ==> s1[k] == s0[k]
    requires forall k :: 0 <= k < |s0| && !(mid <= k < hi) ==> s2[k] == s1[k]
    ensures s0[lo..hi][..mid - lo] == s0[lo..mid] && s0[lo..hi][mid - lo..] == s0[mid..hi]
    ensures s1[mid..hi] == s0[mid..hi] && s2[lo..mid] == s1[lo..mid]
    ensures s2[lo..hi] == s2[lo..mid] + s2[mid..hi]
    ensures forall k :: 0 <= k < |s0| && !(lo <= k < hi) ==> s2[k] == s0[k]
  {
  }

  /** Lines 117-133 up to the final copy: the merge loop proper, with the
      left half in the cache. It stops as soon as one half is used up, having
      written the merged prefix into [lo, i); what is left of the right half
      is still in place at [r, hi). */
  method MergeRun(a: array<int>, lo: int, mid: int, hi: int, cache: array<int>,
                  ghost left: seq<int>, ghost right: seq<int>) returns (l: int, r: int, i: int)
    requires 0 <= lo < mid < hi <= a.Length
    requires mid - lo <= cache.Length && a != cache
    requires |left| == mid - lo && forall k :: 0 <= k < mid - lo ==> cache[k] == left[k]
    requires |right| == hi - mid && forall k :: mid <= k < hi ==> a[k] == right[k - mid]
    modifies a
    ensures (l == mid - lo && mid <= r < hi) || (0 <= l < mid - lo && r == hi)
    ensures i == lo + l + (r - mid)
    ensures forall k :: 0 <= k < a.Length && !(lo <= k < hi) ==> a[k] == old(a[k])
    ensures forall k :: lo <= k < i ==> a[k] == Merge(left, right)[k - lo]
    ensures forall k :: r <= k < hi ==> a[k] == right[k - mid]
    ensures MergeFrom(left, right, l, r - mid) == Merge(left, right)[i - lo..]
  {
    var m := mid - lo;
    ghost var merged := Merge(left, right);
    ghost var k := 0;
    l, r, i := 0, mid, lo;
    while l < m && r < hi
      invariant 0 <= l <= m && mid <= r <= hi && (l < m || r < hi)
      invariant k == r - mid && i == lo + l + k
      invariant forall j {:trigger a[j]} :: 0 <= j < a.Length && !(lo <= j < i) ==> a[j] == old(a[j])
      invariant forall j {:trigger a[j]} :: lo <= j < i ==> a[j] == merged[j - lo]
      invariant MergeFrom(left, right, l, k) == merged[l + k..]
      decreases (m - l) + (hi - r)
    {
      MergeStep(left, right, l, k, merged);
      assert cache[l] == left[l] && a[r] == old(a[r]) == right[k];
      if cache[l] <= a[r] {
        a[i] := cache[l];
        l := l + 1;
      } else {
        a[i] := a[r];
        r := r + 1;
        k := k + 1;
      }
      i := i + 1;
    }
  }

  /** Line 101 together with a call of mergeSort on the whole input: the
      cache has len(input)/2 + 1 slots, and the input ends up sorted and a
      permutation of what it was. */
  method SortWithCache(a: array<int>) returns (cache: array<int>)
    modifies a
    ensures fresh(cache) && cache.Length == a.Length / 2 + 1
    ensures a[..] == MergeSortSeq(old(a[..]))
    ensures Sorted(a[..]) && multiset(a[..]) == multiset(old(a[..]))
  {
    cache := new int[a.Length / 2 + 1];
    ghost var s := a[..];
    assert s == a[0..a.Length];
    MergeSort(a, 0, a.Length, cache);
    assert a[..] == a[0..a.Length];
    MergeSortSeqCorrect(s);
  }

  /** What the merge loop of lines 117-133 can end in when run as written. */
  datatype Outcome = Done(result: seq<int>) | IndexOutOfRange

  /** The merge loop of lines 117-133 as written, on Go slices: `input` is the
      slice being sorted, `mid` its middle, and `cache` the whole package-level
      cache with the left half copied into its front.  Line 120 stores
      cache[i] where cache[l] is meant; Go panics when i is past the end of
      the cache. */
  function MergeLoopAsWritten(cache: seq<int>, input: seq<int>, mid: int, l: int, r: int, i: int): (o: Outcome)
    requires 0 <= l < mid <= r < |input| && mid <= |cache| && i == l + (r - mid)
    ensures o.Done? ==> |o.result| == |input|
    decreases (mid - l) + (|input| - r)
  {
    if cache[l] <= input[r] then
      if i >= |cache| then IndexOutOfRange
      else
        var next := input[i := cache[i]];
        if l + 1 == mid then Done(next)
        else MergeLoopAsWritten(cache, next, mid, l + 1, r, i + 1)
    else
      var next := input[i := input[r]];
      if r + 1 == |input| then Done(next[..i + 1] + cache[l..mid])
      else MergeLoopAsWritten(cache, next, mid, l, r + 1, i + 1)
  }

  /** The input [2, 3, 1, 4]: both halves are already sorted, and the cache of
      4/2 + 1 = 3 slots starts as zeros.  As written, the merge stores the
      stale zero of the cache and loses the 2, where the merge that reads
      cache[l] gives the sorted permutation. */
  lemma MergeLoopAsWrittenLosesElements()
    ensures MergeLoopAsWritten([2, 3, 0], [2, 3, 1, 4], 2, 0, 2, 0) == Done([1, 3, 0, 4])
    ensures multiset([1, 3, 0, 4]) != multiset([2, 3, 1, 4])
    ensures Merge([2, 3], [1, 4]) == [1, 2, 3, 4]
  {
    var cache := [2, 3, 0];
    assert [2, 3, 1, 4][0 := 1] == [1, 3, 1, 4];
    assert [1, 3, 1, 4][1 := 3] == [1, 3, 1, 4];
    assert [1, 3, 1, 4][2 := 0] == [1, 3, 0, 4];
    assert MergeLoopAsWritten(cache, [1, 3, 1, 4], 2, 1, 3, 2) == Done([1, 3, 0, 4]);
    assert MergeLoopAsWritten(cache, [1, 3, 1, 4], 2, 0, 3, 1)
        == MergeLoopAsWritten(cache, [1, 3, 1, 4], 2, 1, 3, 2);
    assert MergeLoopAsWritten(cache, [2, 3, 1, 4], 2, 0, 2, 0)
        == MergeLoopAsWritten(cache, [1, 3, 1, 4], 2, 0, 3, 1);
    assert 0 !in multiset([2, 3, 1, 4]);
    assert MergeFrom([2, 3], [1, 4], 2, 1) == [4];
    assert MergeFrom([2, 3], [1, 4], 1, 1) == [3, 4];
    assert MergeFrom([2, 3], [1, 4], 0, 1) == [2, 3, 4];
    assert MergeFrom([2, 3], [1, 4], 0, 0) == [1, 2, 3, 4];
  }

  /** With the cache of line 101 for an eight-element input (five slots),
      the halves [3, 4, 5, 6] and [1, 2, 7, 8] are each already in order, so
      only the final merge runs; as written it reads cache[5], past the end
      of the cache, where Go panics. */
  lemma MergeLoopAsWrittenOutOfRange()
    ensures MergeLoopAsWritten([3, 4, 5, 6, 0], [3, 4, 5, 6, 1, 2, 7, 8], 4, 0, 4, 0) == IndexOutOfRange
  {
    var cache := [3, 4, 5, 6, 0];
    var s1 := [1, 4, 5, 6, 1, 2, 7, 8];
    var s2 := [1, 2, 5, 6, 1, 2, 7, 8];
    var s5 := [1, 2, 5, 6, 0, 2, 7, 8];
    assert [3, 4, 5, 6, 1, 2, 7, 8][0 := 1] == s1;
    assert s1[1 := 2] == s2;
    assert s2[2 := 5] == s2 && s2[3 := 6] == s2;
    assert s2[4 := 0] == s5;
    assert MergeLoopAsWritten(cache, s5, 4, 3, 6, 5) == IndexOutOfRange;
    assert MergeLoopAsWritten(cache, s2, 4, 2, 6, 4) == MergeLoopAsWritten(cache, s5, 4, 3, 6, 5);
    assert MergeLoopAsWritten(cache, s2, 4, 1, 6, 3) == MergeLoopAsWritten(cache, s2, 4, 2, 6, 4);
    assert MergeLoopAsWritten(cache, s2, 4, 0, 6, 2) == MergeLoopAsWritten(cache, s2, 4, 1, 6, 3);
    assert MergeLoopAsWritten(cache, s1, 4, 0, 5, 1) == MergeLoopAsWritten(cache, s2, 4, 0, 6, 2);
    assert MergeLoopAsWritten(cache, [3, 4, 5, 6, 1, 2, 7, 8], 4, 0, 4, 0)
        == MergeLoopAsWritten(cache, s1, 4, 0, 5, 1);
  }
}
