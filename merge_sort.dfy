/** The sequential merge sort of cpp/practice/parallel_programming/merge_sort.cpp,
    on arrays of int ordered by std::less: merge_sorted merges two ranges into
    an output buffer, sequential_merge_sort_impl sorts both halves of a range
    in place, merges them into the matching slice of a scratch buffer and
    copies the result back, and merge_sort supplies a scratch buffer of the
    range's length. */
module MergeSort {

  predicate Sorted(s: seq<int>) {
    forall i, j | 0 <= i < j < |s| :: s[i] <= s[j]
  }

  // ---------------------------------------------------------------------------
  // Specification on sequences

  /** What merge_sorted writes: while either range has elements, the left one
      goes first exactly when the right range is exhausted or it is strictly
      smaller, so on a tie the right element goes first. */
  function Merge(l: seq<int>, r: seq<int>): (m: seq<int>)
    ensures |m| == |l| + |r|
    decreases |l| + |r|
  {
    if l == [] && r == [] then []
    else if r == [] || (l != [] && l[0] < r[0]) then [l[0]] + Merge(l[1..], r)
    else [r[0]] + Merge(l, r[1..])
  }

  /** merge_sorted writes a permutation of its two input ranges. */
  lemma {:induction false} MergeIsPermutation(l: seq<int>, r: seq<int>)
    ensures multiset(Merge(l, r)) == multiset(l) + multiset(r)
    decreases |l| + |r|, 1
  {
    if l == [] && r == [] {
    } else if r == [] || (l != [] && l[0] < r[0]) {
      TakeLeftPermutation(l, r);
    } else {
      TakeRightPermutation(l, r);
    }
  }

  /** The step of MergeIsPermutation that takes the head of the left input. */
  lemma {:induction false} TakeLeftPermutation(l: seq<int>, r: seq<int>)
    requires l != [] && (r == [] || l[0] < r[0])
    ensures multiset(Merge(l, r)) == multiset(l) + multiset(r)
    decreases |l| + |r|, 0
  {
    MergeIsPermutation(l[1..], r);
    assert l == [l[0]] + l[1..];
    ConsPermutation(l[0], Merge(l[1..], r), l[1..], r);
  }

  /** The step of MergeIsPermutation that takes the head of the right input. */
  lemma {:induction false} TakeRightPermutation(l: seq<int>, r: seq<int>)
    requires r != [] && (l == [] || !(l[0] < r[0]))
    ensures multiset(Merge(l, r)) == multiset(l) + multiset(r)
    decreases |l| + |r|, 0
  {
    MergeIsPermutation(l, r[1..]);
    assert r == [r[0]] + r[1..];
    ConsPermutation(r[0], Merge(l, r[1..]), r[1..], l);
  }

  /** Putting the same element in front of a merge and of one of its inputs
      keeps the merge a permutation of the inputs. */
  lemma ConsPermutation(x: int, m: seq<int>, s: seq<int>, other: seq<int>)
    requires multiset(m) == multiset(s) + multiset(other)
    ensures multiset([x] + m) == multiset([x] + s) + multiset(other)
    ensures multiset([x] + m) == multiset(other) + multiset([x] + s)
  {
    ConsMultiset(x, m);
    ConsMultiset(x, s);
  }

  lemma ConsMultiset(x: int, s: seq<int>)
    ensures multiset([x] + s) == multiset{x} + multiset(s)
  {
  }

  /** What sequential_merge_sort_impl leaves in its range: a range of at most
      one element as it was, otherwise the merge of its two sorted halves,
      the first of which has half the length, rounded down. */
  function MergeSortOf(s: seq<int>): (t: seq<int>)
    ensures |t| == |s|
    decreases |s|
  {
    if |s| <= 1 then s
    else Merge(MergeSortOf(s[..|s| / 2]), MergeSortOf(s[|s| / 2..]))
  }

  lemma SplitMultiset(s: seq<int>, n: nat)
    requires n <= |s|
    ensures multiset(s[..n]) + multiset(s[n..]) == multiset(s)
  {
    assert s[..n] + s[n..] == s;
  }

  /** The sort leaves a permutation of its range. */
  lemma {:induction false} MergeSortIsPermutation(s: seq<int>)
    ensures multiset(MergeSortOf(s)) == multiset(s)
    decreases |s|
  {
    if |s| > 1 {
      var left, right := s[..|s| / 2], s[|s| / 2..];
      MergeSortIsPermutation(left);
      MergeSortIsPermutation(right);
      MergeIsPermutation(MergeSortOf(left), MergeSortOf(right));
      SplitMultiset(s, |s| / 2);
    }
  }

  /** Every element of the sequence is at least x. */
  predicate AllAtLeast(s: seq<int>, x: int) {
    forall k | 0 <= k < |s| :: x <= s[k]
  }

  lemma AllAtLeastByMultiset(s: seq<int>, t: seq<int>, x: int)
    requires AllAtLeast(t, x) && multiset(s) <= multiset(t)
    ensures AllAtLeast(s, x)
  {
    forall k | 0 <= k < |s| ensures x <= s[k] {
      assert s[k] in multiset(s);
      assert s[k] in multiset(t);
      var j :| 0 <= j < |t| && t[j] == s[k];
    }
  }

  lemma SortedCons(x: int, s: seq<int>)
    requires Sorted(s) && AllAtLeast(s, x)
    ensures Sorted([x] + s)
  {
  }

  /** merge_sorted of two sorted ranges is sorted. */
  lemma {:induction false} MergeIsSorted(l: seq<int>, r: seq<int>)
    requires Sorted(l) && Sorted(r)
    ensures Sorted(Merge(l, r))
    decreases |l| + |r|
  {
    if l == [] && r == [] {
    } else if r == [] || (l != [] && l[0] < r[0]) {
      var rest := Merge(l[1..], r);
      MergeIsSorted(l[1..], r);
      assert AllAtLeast(l[1..] + r, l[0]) by {
        forall k | 0 <= k < |l[1..] + r| ensures l[0] <= (l[1..] + r)[k] {
          if k >= |l[1..]| {
            assert (l[1..] + r)[k] == r[k - |l[1..]|];
            assert r[0] <= r[k - |l[1..]|];
          }
        }
      }
      MergeIsPermutation(l[1..], r);
      AllAtLeastByMultiset(rest, l[1..] + r, l[0]);
      SortedCons(l[0], rest);
    } else {
      var rest := Merge(l, r[1..]);
      MergeIsSorted(l, r[1..]);
      assert AllAtLeast(l + r[1..], r[0]) by {
        forall k | 0 <= k < |l + r[1..]| ensures r[0] <= (l + r[1..])[k] {
          if k < |l| {
            assert (l + r[1..])[k] == l[k];
            assert l[0] <= l[k];
          } else {
            assert (l + r[1..])[k] == r[1..][k - |l|];
          }
        }
      }
      MergeIsPermutation(l, r[1..]);
      AllAtLeastByMultiset(rest, l + r[1..], r[0]);
      SortedCons(r[0], rest);
    }
  }

  /** The sort leaves its range sorted. */
  lemma {:induction false} MergeSortIsSorted(s: seq<int>)
    ensures Sorted(MergeSortOf(s))
    decreases |s|
  {
    if |s| > 1 {
      MergeSortIsSorted(s[..|s| / 2]);
      MergeSortIsSorted(s[|s| / 2..]);
      MergeIsSorted(MergeSortOf(s[..|s| / 2]), MergeSortOf(s[|s| / 2..]));
    }
  }

  /** The first element of a non-empty sorted sequence is its least. */
  lemma SortedHeads(s: seq<int>, t: seq<int>)
    requires Sorted(s) && Sorted(t) && multiset(s) == multiset(t) && s != []
    ensures t != [] && s[0] == t[0]
  {
    assert s[0] in multiset(t) && t[0] in multiset(s) by {
      assert s[0] in multiset(s);
      assert t != [] && t[0] in multiset(t);
    }
    var i :| 0 <= i < |t| && t[i] == s[0];
    var j :| 0 <= j < |s| && s[j] == t[0];
    assert t[0] <= t[i] && s[0] <= s[j];
  }

  lemma TailMultiset(s: seq<int>)
    requires s != []
    ensures Sorted(s) ==> Sorted(s[1..])
    ensures multiset(s[1..]) == multiset(s) - multiset{s[0]}
  {
    assert s == [s[0]] + s[1..];
  }

  /** Two sorted sequences with the same elements are equal: a sort has only
      one possible result. */
  lemma {:induction false} SortedUnique(s: seq<int>, t: seq<int>)
    requires Sorted(s) && Sorted(t) && multiset(s) == multiset(t)
    ensures s == t
    decreases |s|
  {
    if s == [] {
      assert |t| == |multiset(t)| == 0;
    } else {
      SortedHeads(s, t);
      TailMultiset(s);
      TailMultiset(t);
      SortedUnique(s[1..], t[1..]);
      assert s == [s[0]] + s[1..] && t == [t[0]] + t[1..];
    }
  }

  // ---------------------------------------------------------------------------
  // The algorithm on arrays

  /** Merge of the ranges [i, lEnd) and [j, rEnd) of one sequence, by
      indices, as the loop of merge_sorted advances them. */
  function MergeFrom(A: seq<int>, i: nat, lEnd: nat, j: nat, rEnd: nat): (m: seq<int>)
    requires i <= lEnd <= |A| && j <= rEnd <= |A|
    ensures |m| == (lEnd - i) + (rEnd - j)
    decreases (lEnd - i) + (rEnd - j)
  {
    if i == lEnd && j == rEnd then []
    else if j == rEnd || (i != lEnd && A[i] < A[j]) then [A[i]] + MergeFrom(A, i + 1, lEnd, j, rEnd)
    else [A[j]] + MergeFrom(A, i, lEnd, j + 1, rEnd)
  }

  lemma {:induction false} MergeFromIsMerge(A: seq<int>, i: nat, lEnd: nat, j: nat, rEnd: nat)
    requires i <= lEnd <= |A| && j <= rEnd <= |A|
    ensures MergeFrom(A, i, lEnd, j, rEnd) == Merge(A[i..lEnd], A[j..rEnd])
    decreases (lEnd - i) + (rEnd - j)
  {
    if i == lEnd && j == rEnd {
    } else if j == rEnd || (i != lEnd && A[i] < A[j]) {
      MergeFromIsMerge(A, i + 1, lEnd, j, rEnd);
      assert A[i..lEnd][1..] == A[i + 1..lEnd];
    } else {
      MergeFromIsMerge(A, i, lEnd, j + 1, rEnd);
      assert A[j..rEnd][1..] == A[j + 1..rEnd];
    }
  }

  /** merge_sorted(l_begin, l_end, r_begin, r_end, out): both input ranges are
      ranges of `a`, the output starts at `outBegin` in the distinct array
      `out`, and only the written slice of `out` changes. */
  method MergeSorted(a: array<int>, lBegin: nat, lEnd: nat, rBegin: nat, rEnd: nat, out: array<int>, outBegin: nat)
    requires a != out
    requires lBegin <= lEnd <= a.Length && rBegin <= rEnd <= a.Length
    requires outBegin + (lEnd - lBegin) + (rEnd - rBegin) <= out.Length
    modifies out
    ensures out[outBegin..outBegin + (lEnd - lBegin) + (rEnd - rBegin)] == Merge(a[lBegin..lEnd], a[rBegin..rEnd])
    ensures forall t | 0 <= t < out.Length && !(outBegin <= t < outBegin + (lEnd - lBegin) + (rEnd - rBegin)) ::
      out[t] == old(out[t])
  {
    MergeLoop(a, lBegin, lEnd, rBegin, rEnd, out, outBegin);
    MergeFromIsMerge(a[..], lBegin, lEnd, rBegin, rEnd);
    assert a[..][lBegin..lEnd] == a[lBegin..lEnd] && a[..][rBegin..rEnd] == a[rBegin..rEnd];
  }

  /** The loop of merge_sorted: it writes the merge of the two ranges, as the
      loop sees them, to the output slice. */
  method MergeLoop(a: array<int>, lBegin: nat, lEnd: nat, rBegin: nat, rEnd: nat, out: array<int>, outBegin: nat)
    requires a != out
    requires lBegin <= lEnd <= a.Length && rBegin <= rEnd <= a.Length
    requires outBegin + (lEnd - lBegin) + (rEnd - rBegin) <= out.Length
    modifies out
    ensures out[outBegin..outBegin + (lEnd - lBegin) + (rEnd - rBegin)] == MergeFrom(a[..], lBegin, lEnd, rBegin, rEnd)
    ensures forall t | 0 <= t < out.Length && !(outBegin <= t < outBegin + (lEnd - lBegin) + (rEnd - rBegin)) ::
      out[t] == old(out[t])
  {
    ghost var outEnd := outBegin + (lEnd - lBegin) + (rEnd - rBegin);
    ghost var A := a[..];
    ghost var whole := MergeFrom(A, lBegin, lEnd, rBegin, rEnd);
    ghost var done: seq<int> := [];
    var i, j, k := lBegin, rBegin, outBegin;
    while i != lEnd || j != rEnd
      invariant lBegin <= i <= lEnd && rBegin <= j <= rEnd
      invariant k == outBegin + (i - lBegin) + (j - rBegin) && |done| == k - outBegin
      invariant done + MergeFrom(A, i, lEnd, j, rEnd) == whole
      invariant forall t {:trigger out[t]} | outBegin <= t < k :: out[t] == done[t - outBegin]
      invariant forall t | 0 <= t < out.Length && !(outBegin <= t < outEnd) :: out[t] == old(out[t])
      decreases (lEnd - i) + (rEnd - j)
    {
      ghost var i0, j0 := i, j;
      var x;
      if j == rEnd || (i != lEnd && a[i] < a[j]) {
        x := a[i];
        i := i + 1;
      } else {
        x := a[j];
        j := j + 1;
      }
      MergeFromStep(A, i0, lEnd, j0, rEnd, x, i, j);
      out[k] := x;
      done := done + [x];
      k := k + 1;
    }
    assert done == whole;
    assert out[outBegin..outEnd] == whole;
  }

  /** One step of the loop of merge_sorted: the element written and the
      advanced indices leave the rest of the merge. */
  lemma MergeFromStep(A: seq<int>, i: nat, lEnd: nat, j: nat, rEnd: nat, x: int, i': nat, j': nat)
    requires i <= lEnd <= |A| && j <= rEnd <= |A| && (i != lEnd || j != rEnd)
    requires if j == rEnd || (i != lEnd && A[i] < A[j]) then x == A[i] && i' == i + 1 && j' == j
             else x == A[j] && i' == i && j' == j + 1
    ensures i' <= lEnd && j' <= rEnd
    ensures forall done: seq<int> {:trigger done + MergeFrom(A, i, lEnd, j, rEnd)} ::
      done + MergeFrom(A, i, lEnd, j, rEnd) == (done + [x]) + MergeFrom(A, i', lEnd, j', rEnd)
  {
    forall done: seq<int> ensures done + MergeFrom(A, i, lEnd, j, rEnd) == (done + [x]) + MergeFrom(A, i', lEnd, j', rEnd) {
      assert MergeFrom(A, i, lEnd, j, rEnd) == [x] + MergeFrom(A, i', lEnd, j', rEnd);
    }
  }

  /** std::copy(src[srcBegin..srcEnd), dst + dstBegin). */
  method Copy(src: array<int>, srcBegin: nat, srcEnd: nat, dst: array<int>, dstBegin: nat)
    requires src != dst && srcBegin <= srcEnd <= src.Length && dstBegin + (srcEnd - srcBegin) <= dst.Length
    modifies dst
    ensures dst[dstBegin..dstBegin + (srcEnd - srcBegin)] == old(src[srcBegin..srcEnd])
    ensures forall t | 0 <= t < dst.Length && !(dstBegin <= t < dstBegin + (srcEnd - srcBegin)) :: dst[t] == old(dst[t])
  {
    var i := srcBegin;
    while i != srcEnd
      invariant srcBegin <= i <= srcEnd
      invariant dst[dstBegin..dstBegin + (i - srcBegin)] == src[srcBegin..i]
      invariant forall t | 0 <= t < dst.Length && !(dstBegin <= t < dstBegin + (i - srcBegin)) :: dst[t] == old(dst[t])
    {
      dst[dstBegin + (i - srcBegin)] := src[i];
      assert src[srcBegin..i + 1] == src[srcBegin..i] + [src[i]];
      i := i + 1;
    }
  }

  /** The last two steps of sequential_merge_sort_impl: merge the two halves
      into the scratch slice and copy it back over the range. */
  method MergeBack(a: array<int>, begin: nat, half: nat, end: nat, copy: array<int>, copyBegin: nat)
    requires a != copy && begin <= half <= end <= a.Length && copyBegin + (end - begin) <= copy.Length
    modifies a, copy
    ensures a[begin..end] == Merge(old(a[begin..half]), old(a[half..end]))
    ensures forall t | 0 <= t < a.Length && !(begin <= t < end) :: a[t] == old(a[t])
    ensures forall t | 0 <= t < copy.Length && !(copyBegin <= t < copyBegin + (end - begin)) :: copy[t] == old(copy[t])
  {
    MergeSorted(a, begin, half, half, end, copy, copyBegin);
    Copy(copy, copyBegin, copyBegin + (end - begin), a, begin);
  }

  /** sequential_merge_sort_impl(begin, end, copy_begin, copy_end): the scratch
      slice starts at `copyBegin` in the distinct array `copy` and has the
      range's length. Only the range and that slice change. */
  method SequentialMergeSortImpl(a: array<int>, begin: nat, end: nat, copy: array<int>, copyBegin: nat)
    requires a != copy && begin <= end <= a.Length && copyBegin + (end - begin) <= copy.Length
    modifies a, copy
    ensures a[begin..end] == MergeSortOf(old(a[begin..end]))
    ensures forall t | 0 <= t < a.Length && !(begin <= t < end) :: a[t] == old(a[t])
    ensures forall t | 0 <= t < copy.Length && !(copyBegin <= t < copyBegin + (end - begin)) :: copy[t] == old(copy[t])
    decreases end - begin, 1
  {
    var distance := end - begin;
    if distance > 1 {
      var half := begin + distance / 2;
      SplitSort(a[..], begin, half, end);
      SortHalves(a, begin, half, end, copy, copyBegin);
      MergeBack(a, begin, half, end, copy, copyBegin);
    }
  }

  /** The two recursive calls of sequential_merge_sort_impl: the halves
      [begin, half) and [half, end), each with its own part of the scratch
      slice. */
  method SortHalves(a: array<int>, begin: nat, half: nat, end: nat, copy: array<int>, copyBegin: nat)
    requires a != copy && begin < half < end <= a.Length && copyBegin + (end - begin) <= copy.Length
    modifies a, copy
    ensures a[begin..half] == MergeSortOf(old(a[begin..half]))
    ensures a[half..end] == MergeSortOf(old(a[half..end]))
    ensures forall t | 0 <= t < a.Length && !(begin <= t < end) :: a[t] == old(a[t])
    ensures forall t | 0 <= t < copy.Length && !(copyBegin <= t < copyBegin + (end - begin)) :: copy[t] == old(copy[t])
    decreases end - begin, 0
  {
    ghost var a0 := a[..];
    SequentialMergeSortImpl(a, begin, half, copy, copyBegin);
    ghost var a1 := a[..];
    assert a1[half..end] == a0[half..end] by {
      SliceKept(a0, a1, half, end);
    }
    SequentialMergeSortImpl(a, half, end, copy, copyBegin + (half - begin));
    ghost var a2 := a[..];
    assert a2[begin..half] == a1[begin..half] by {
      SliceKept(a1, a2, begin, half);
    }
    assert a[begin..half] == a2[begin..half] && a[half..end] == a2[half..end];
  }

  /** A slice none of whose indices was written is as it was. */
  lemma SliceKept(s: seq<int>, s': seq<int>, lo: nat, hi: nat)
    requires lo <= hi <= |s| == |s'|
    requires forall t | lo <= t < hi :: s'[t] == s[t]
    ensures s'[lo..hi] == s[lo..hi]
  {
  }

  /** MergeSortOf of a range of more than one element, split after the first
      half of its length, rounded down. */
  lemma SplitSort(A: seq<int>, begin: nat, half: nat, end: nat)
    requires begin < half < end <= |A| && half - begin == (end - begin) / 2
    ensures MergeSortOf(A[begin..end]) == Merge(MergeSortOf(A[begin..half]), MergeSortOf(A[half..end]))
  {
    SliceOfSlice(A, begin, half, end);
    UnfoldSort(A[begin..end], A[begin..half], A[half..end]);
  }

  lemma SliceOfSlice(A: seq<int>, begin: nat, half: nat, end: nat)
    requires begin <= half <= end <= |A|
    ensures A[begin..end][..half - begin] == A[begin..half]
    ensures A[begin..end][half - begin..] == A[half..end]
  {
  }

  lemma UnfoldSort(s: seq<int>, l: seq<int>, r: seq<int>)
    requires |s| > 1 && l == s[..|s| / 2] && r == s[|s| / 2..]
    ensures MergeSortOf(s) == Merge(MergeSortOf(l), MergeSortOf(r))
  {
  }

  /** merge_sort: sorts the whole array through a scratch buffer of its
      length. */
  method MergeSortArray(a: array<int>)
    modifies a
    ensures a[..] == MergeSortOf(old(a[..]))
  {
    ghost var s := a[..];
    assert s == a[0..a.Length];
    var copy := new int[a.Length];
    SequentialMergeSortImpl(a, 0, a.Length, copy, 0);
    assert a[..] == a[0..a.Length];
  }

  /** The program's own run: {2, 5, 2, 1, 9, 7} comes out as 1 2 2 5 7 9. */
  lemma SortExample()
    ensures MergeSortOf([2, 5, 2, 1, 9, 7]) == [1, 2, 2, 5, 7, 9]
  {
    SortLeftExample();
    SortRightExample();
    UnfoldSort([2, 5, 2, 1, 9, 7], [2, 5, 2], [1, 9, 7]);
    MergeHalvesExample();
  }

  /** The two sorted halves merge to 1 2 2 5 7 9. */
  lemma MergeHalvesExample()
    ensures Merge([2, 2, 5], [1, 7, 9]) == [1, 2, 2, 5, 7, 9]
  {
    assert Merge([5], [7, 9]) == [5, 7, 9];
    assert Merge([2, 5], [7, 9]) == [2, 5, 7, 9];
    assert Merge([2, 2, 5], [7, 9]) == [2, 2, 5, 7, 9];
    assert Merge([2, 2, 5], [1, 7, 9]) == [1] + Merge([2, 2, 5], [7, 9]);
  }

  /** The first half of the program's array sorts to 2 2 5. */
  lemma SortLeftExample()
    ensures MergeSortOf([2, 5, 2]) == [2, 2, 5]
  {
    UnfoldSort([5, 2], [5], [2]);
    assert Merge([5], [2]) == [2, 5];
    UnfoldSort([2, 5, 2], [2], [5, 2]);
    assert Merge([2], [2, 5]) == [2, 2, 5];
  }

  /** The second half sorts to 1 7 9. */
  lemma SortRightExample()
    ensures MergeSortOf([1, 9, 7]) == [1, 7, 9]
  {
    UnfoldSort([9, 7], [9], [7]);
    assert Merge([9], [7]) == [7, 9];
    UnfoldSort([1, 9, 7], [1], [9, 7]);
    assert Merge([1], [7, 9]) == [1, 7, 9];
  }

  method SortArrayExample() returns (r: seq<int>)
    ensures r == [1, 2, 2, 5, 7, 9]
  {
    var a := new int[6];
    a[0], a[1], a[2], a[3], a[4], a[5] := 2, 5, 2, 1, 9, 7;
    assert a[..] == [2, 5, 2, 1, 9, 7];
    MergeSortArray(a);
    SortExample();
    r := a[..];
  }
}
