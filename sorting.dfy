/** merge, merge_sort and sort_part of Sort.py. */
module Sorting {
  import opened Sequences

  predicate Sorted(s: seq<int>)
  {
    forall i, j :: 0 <= i < j < |s| ==> s[i] <= s[j]
  }

  /** What is left of the merge of left and right once left[..i] and right[..j] have
      been taken: the two-pointer loop from (i, j) followed by the two extends. */
  function MergeFrom(left: seq<int>, right: seq<int>, i: nat, j: nat): seq<int>
    requires i <= |left| && j <= |right|
    decreases |left| - i + |right| - j
  {
    if i < |left| && j < |right| then
      if left[i] <= right[j] then [left[i]] + MergeFrom(left, right, i + 1, j)
      else [right[j]] + MergeFrom(left, right, i, j + 1)
    else left[i..] + right[j..]
  }

  function Merged(left: seq<int>, right: seq<int>): seq<int>
  {
    MergeFrom(left, right, 0, 0)
  }

  /** merge (Sort.py:35-47). */
  method Merge(left: seq<int>, right: seq<int>) returns (result: seq<int>)
    ensures result == Merged(left, right)
    ensures |result| == |left| + |right|
    ensures multiset(result) == multiset(left + right)
    ensures Sorted(left) && Sorted(right) ==> Sorted(result)
  {
    result := [];
    var i, j := 0, 0;
    while i < |left| && j < |right|
      invariant i <= |left| && j <= |right|
      invariant |result| == i + j
      invariant result + MergeFrom(left, right, i, j) == Merged(left, right)
      decreases |left| - i + |right| - j
    {
      if left[i] <= right[j] {
        ghost var tail := MergeFrom(left, right, i + 1, j);
        assert MergeFrom(left, right, i, j) == [left[i]] + tail;
        assert result + ([left[i]] + tail) == (result + [left[i]]) + tail;
        result := result + [left[i]];
        i := i + 1;
      } else {
        ghost var tail := MergeFrom(left, right, i, j + 1);
        assert MergeFrom(left, right, i, j) == [right[j]] + tail;
        assert result + ([right[j]] + tail) == (result + [right[j]]) + tail;
        result := result + [right[j]];
        j := j + 1;
      }
    }
    assert MergeFrom(left, right, i, j) == left[i..] + right[j..];
    assert result + (left[i..] + right[j..]) == (result + left[i..]) + right[j..];
    result := result + left[i..];
    result := result + right[j..];
    MergedPermutation(left, right);
    if Sorted(left) && Sorted(right) {
      MergedSorted(left, right);
    }
  }

  /** The merge holds exactly the elements of both inputs. */
  lemma {:induction false} MergeFromPermutation(left: seq<int>, right: seq<int>, i: nat, j: nat)
    requires i <= |left| && j <= |right|
    ensures multiset(MergeFrom(left, right, i, j)) == multiset(left[i..]) + multiset(right[j..])
    decreases |left| - i + |right| - j
  {
    if i < |left| && j < |right| {
      if left[i] <= right[j] {
        MergeFromPermutation(left, right, i + 1, j);
        ConsMultiset(left[i], MergeFrom(left, right, i + 1, j));
        DropMultiset(left, i);
      } else {
        MergeFromPermutation(left, right, i, j + 1);
        ConsMultiset(right[j], MergeFrom(left, right, i, j + 1));
        DropMultiset(right, j);
      }
    }
  }

  lemma MergedPermutation(left: seq<int>, right: seq<int>)
    ensures |Merged(left, right)| == |left| + |right|
    ensures multiset(Merged(left, right)) == multiset(left + right)
  {
    MergeFromPermutation(left, right, 0, 0);
    assert left[0..] == left && right[0..] == right;
    assert |Merged(left, right)| == |multiset(Merged(left, right))| == |multiset(left + right)|;
  }

  /** The merge of sorted inputs is sorted. */
  lemma {:induction false} MergeFromSorted(left: seq<int>, right: seq<int>, i: nat, j: nat)
    requires i <= |left| && j <= |right|
    requires Sorted(left) && Sorted(right)
    ensures Sorted(MergeFrom(left, right, i, j))
    decreases |left| - i + |right| - j
  {
    if i < |left| && j < |right| {
      if left[i] <= right[j] {
        MergeFromSorted(left, right, i + 1, j);
        MergeFromBound(left, right, i + 1, j, left[i]);
      } else {
        MergeFromSorted(left, right, i, j + 1);
        MergeFromBound(left, right, i, j + 1, right[j]);
      }
    } else {
      assert Sorted(left[i..]) && Sorted(right[j..]);
    }
  }

  /** A lower bound of what remains of both sorted inputs bounds the rest of the merge. */
  lemma MergeFromBound(left: seq<int>, right: seq<int>, i: nat, j: nat, b: int)
    requires i <= |left| && j <= |right|
    requires Sorted(left) && Sorted(right)
    requires i < |left| ==> b <= left[i]
    requires j < |right| ==> b <= right[j]
    ensures forall k :: 0 <= k < |MergeFrom(left, right, i, j)| ==> b <= MergeFrom(left, right, i, j)[k]
  {
    MergeFromPermutation(left, right, i, j);
    var rest := MergeFrom(left, right, i, j);
    forall k | 0 <= k < |rest|
      ensures b <= rest[k]
    {
      assert rest[k] in multiset(rest);
      assert rest[k] in left[i..] || rest[k] in right[j..];
    }
  }

  lemma MergedSorted(left: seq<int>, right: seq<int>)
    requires Sorted(left) && Sorted(right)
    ensures Sorted(Merged(left, right))
  {
    MergeFromSorted(left, right, 0, 0);
  }

  /** Where an element of the merge was taken from: left[index] or right[index]. */
  datatype Source = FromLeft(index: nat) | FromRight(index: nat)

  /** The source of every element of MergeFrom(left, right, i, j), by the same recursion. */
  function SourcesFrom(left: seq<int>, right: seq<int>, i: nat, j: nat): seq<Source>
    requires i <= |left| && j <= |right|
    decreases |left| - i + |right| - j
  {
    if i < |left| && j < |right| then
      if left[i] <= right[j] then [FromLeft(i)] + SourcesFrom(left, right, i + 1, j)
      else [FromRight(j)] + SourcesFrom(left, right, i, j + 1)
    else
      seq(|left| - i, k requires 0 <= k < |left| - i => FromLeft(i + k)) +
      seq(|right| - j, k requires 0 <= k < |right| - j => FromRight(j + k))
  }

  /** Every element of the merge is the element its source names, and sources lie
      in left[i..] and right[j..]. */
  ghost predicate SourcesValid(left: seq<int>, right: seq<int>, i: nat, j: nat, m: seq<int>, src: seq<Source>)
  {
    |src| == |m| &&
    (forall k :: 0 <= k < |src| && src[k].FromLeft? ==> i <= src[k].index < |left| && m[k] == left[src[k].index]) &&
    (forall k :: 0 <= k < |src| && src[k].FromRight? ==> j <= src[k].index < |right| && m[k] == right[src[k].index])
  }

  /** Each element of the merge is the element its source names. */
  lemma {:induction false} SourcesFromValid(left: seq<int>, right: seq<int>, i: nat, j: nat)
    requires i <= |left| && j <= |right|
    ensures SourcesValid(left, right, i, j, MergeFrom(left, right, i, j), SourcesFrom(left, right, i, j))
    decreases |left| - i + |right| - j
  {
    if i < |left| && j < |right| {
      if left[i] <= right[j] {
        SourcesFromValid(left, right, i + 1, j);
        ConsValid(left, right, i, j, i + 1, j, left[i], FromLeft(i),
          MergeFrom(left, right, i + 1, j), SourcesFrom(left, right, i + 1, j));
      } else {
        SourcesFromValid(left, right, i, j + 1);
        ConsValid(left, right, i, j, i, j + 1, right[j], FromRight(j),
          MergeFrom(left, right, i, j + 1), SourcesFrom(left, right, i, j + 1));
      }
    } else {
      TailsValid(left, right, i, j);
    }
  }

  lemma ConsValid(left: seq<int>, right: seq<int>, i: nat, j: nat, i': nat, j': nat,
                  x: int, s: Source, m: seq<int>, src: seq<Source>)
    requires i <= i' && j <= j'
    requires SourcesValid(left, right, i', j', m, src)
    requires s.FromLeft? ==> i <= s.index < |left| && x == left[s.index]
    requires s.FromRight? ==> j <= s.index < |right| && x == right[s.index]
    ensures SourcesValid(left, right, i, j, [x] + m, [s] + src)
  {
    var m', src' := [x] + m, [s] + src;
    assert forall k :: 0 < k < |src'| ==> src'[k] == src[k - 1] && m'[k] == m[k - 1];
  }

  /** Once one input is used up, the rest of the merge is left[i..] then right[j..]. */
  lemma TailsValid(left: seq<int>, right: seq<int>, i: nat, j: nat)
    requires i <= |left| && j <= |right|
    requires !(i < |left| && j < |right|)
    ensures SourcesValid(left, right, i, j, MergeFrom(left, right, i, j), SourcesFrom(left, right, i, j))
  {
    var m, src := MergeFrom(left, right, i, j), SourcesFrom(left, right, i, j);
    var a := seq(|left| - i, k requires 0 <= k < |left| - i => FromLeft(i + k));
    var b := seq(|right| - j, k requires 0 <= k < |right| - j => FromRight(j + k));
    assert m == left[i..] + right[j..];
    assert src == a + b;
    forall k | 0 <= k < |src|
      ensures src[k].FromLeft? ==> i <= src[k].index < |left| && m[k] == left[src[k].index]
      ensures src[k].FromRight? ==> j <= src[k].index < |right| && m[k] == right[src[k].index]
    {
      if k < |a| {
        assert src[k] == FromLeft(i + k) && m[k] == left[i + k];
      } else {
        assert src[k] == FromRight(j + k - |a|) && m[k] == right[j + k - |a|];
      }
    }
  }

  /** Elements taken from the same input appear in the merge in their input order. */
  lemma {:induction false} SourcesFromOrdered(left: seq<int>, right: seq<int>, i: nat, j: nat)
    requires i <= |left| && j <= |right|
    ensures SideOrdered(SourcesFrom(left, right, i, j))
    decreases |left| - i + |right| - j
  {
    if i < |left| && j < |right| {
      if left[i] <= right[j] {
        SourcesFromOrdered(left, right, i + 1, j);
        SourcesFromValid(left, right, i + 1, j);
        ConsOrdered(FromLeft(i), SourcesFrom(left, right, i + 1, j));
      } else {
        SourcesFromOrdered(left, right, i, j + 1);
        SourcesFromValid(left, right, i, j + 1);
        ConsOrdered(FromRight(j), SourcesFrom(left, right, i, j + 1));
      }
    }
  }

  /** Within each side, source indices strictly increase. */
  ghost predicate SideOrdered(src: seq<Source>)
  {
    (forall p, q :: 0 <= p < q < |src| && src[p].FromLeft? && src[q].FromLeft? ==> src[p].index < src[q].index) &&
    (forall p, q :: 0 <= p < q < |src| && src[p].FromRight? && src[q].FromRight? ==> src[p].index < src[q].index)
  }

  lemma ConsOrdered(s: Source, rest: seq<Source>)
    requires SideOrdered(rest)
    requires forall k :: 0 <= k < |rest| && rest[k].FromLeft? == s.FromLeft? ==> s.index < rest[k].index
    ensures SideOrdered([s] + rest)
  {
    var src := [s] + rest;
    assert forall q :: 0 < q < |src| ==> src[q] == rest[q - 1];
  }

  /** Ties go to the left input: an element taken from right is strictly smaller than
      every element taken from left after it. */
  lemma {:induction false} SourcesFromTies(left: seq<int>, right: seq<int>, i: nat, j: nat)
    requires i <= |left| && j <= |right|
    requires Sorted(left)
    ensures var m, src := MergeFrom(left, right, i, j), SourcesFrom(left, right, i, j);
      |src| == |m| &&
      forall p, q :: 0 <= p < q < |src| && src[p].FromRight? && src[q].FromLeft? ==> m[p] < m[q]
    decreases |left| - i + |right| - j
  {
    SourcesFromValid(left, right, i, j);
    if i < |left| && j < |right| {
      var i', j' := if left[i] <= right[j] then i + 1 else i, if left[i] <= right[j] then j else j + 1;
      SourcesFromTies(left, right, i', j');
      SourcesFromValid(left, right, i', j');
    }
  }

  /** merge is stable: it interleaves left and right keeping each one's order, and on
      equal elements takes from left first (Sort.py:38-44). */
  lemma MergeStable(left: seq<int>, right: seq<int>)
    requires Sorted(left)
    ensures var m, src := Merged(left, right), SourcesFrom(left, right, 0, 0);
      SourcesValid(left, right, 0, 0, m, src) &&
      SideOrdered(src) &&
      (forall p, q :: 0 <= p < q < |src| && src[p].FromRight? && src[q].FromLeft? ==> m[p] < m[q])
  {
    SourcesFromValid(left, right, 0, 0);
    SourcesFromOrdered(left, right, 0, 0);
    SourcesFromTies(left, right, 0, 0);
  }

  /** merge_sort (Sort.py:26-32): sorted, a permutation of its input, and the input
      itself when it has at most one element. */
  function MergeSort(arr: seq<int>): (r: seq<int>)
    ensures Sorted(r)
    ensures multiset(r) == multiset(arr)
    ensures |arr| <= 1 ==> r == arr
    decreases |arr|
  {
    if |arr| <= 1 then arr
    else
      var mid := |arr| / 2;
      var left := MergeSort(arr[..mid]);
      var right := MergeSort(arr[mid..]);
      assert arr == arr[..mid] + arr[mid..];
      MergedPermutation(left, right);
      MergedSorted(left, right);
      Merged(left, right)
  }

  function Id(x: int): int
  {
    x
  }

  /** Two sorted permutations of the same elements are equal. */
  lemma SortedUnique(a: seq<int>, b: seq<int>)
    requires Sorted(a) && Sorted(b) && multiset(a) == multiset(b)
    ensures a == b
  {
    assert SortedBy(a, Id) && SortedBy(b, Id) && KeyInjective(a, Id);
    SortedByUnique(a, b, Id);
  }

  /** sort_part (Sort.py:50-54) without the log message: the part id is kept, the data
      sorted. */
  function SortPart(part: (int, seq<int>)): (r: (int, seq<int>))
    ensures r.0 == part.0
    ensures Sorted(r.1) && multiset(r.1) == multiset(part.1)
  {
    (part.0, MergeSort(part.1))
  }
}
