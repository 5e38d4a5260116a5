/** parallel_sort of Sort.py without its pool and logger: split the array into
    numProcesses parts, sort each part, put the sorted parts back in part order,
    concatenate them and merge-sort the concatenation. */
module ParallelSort {
  import opened Sequences
  import opened Chunking
  import opened Tagged
  import opened Sorting

  lemma PartBounds(len: nat, n: nat, i: nat)
    requires n >= 1 && i < n
    ensures 0 <= i * (len / n) <= (i + 1) * (len / n) <= n * (len / n) <= len
  {
    MulMono(i, i + 1, len / n);
    MulMono(i + 1, n, len / n);
  }

  /** The parts as built at Sort.py:62-66: part i holds arr[i * size..(i + 1) * size],
      and when n does not divide the length the leftover arr[n * size..] is appended
      to the last part. */
  function Parts(arr: seq<int>, n: nat): seq<(int, seq<int>)>
    requires n >= 1
  {
    var size := |arr| / n;
    var parts := seq(n, i requires 0 <= i < n =>
      PartBounds(|arr|, n, i);
      (i, arr[i * size..(i + 1) * size]));
    PartBounds(|arr|, n, n - 1);
    if |arr| % n != 0 then parts[n - 1 := (parts[n - 1].0, parts[n - 1].1 + arr[n * size..])]
    else parts
  }

  /** The parts are exactly n, tagged 0 to n - 1, and are the same n-way split the
      cipher uses: every part but the last holds len // n elements, the last one runs
      to the end, so the parts joined give the array back. */
  lemma PartsAreChunks(arr: seq<int>, n: nat)
    requires n >= 1
    ensures Parts(arr, n) == Enumerate(Chunks(arr, n))
    ensures Flatten(Payloads(Parts(arr, n))) == arr
  {
    var ps, cs := Parts(arr, n), Chunks(arr, n);
    forall i | 0 <= i < n
      ensures ps[i] == (i, cs[i])
    {
      PartAt(arr, n, i);
    }
    PayloadsOfEnumerate(cs);
    ChunksCover(arr, n);
  }

  /** Part i before the leftover is appended: arr[i * size..(i + 1) * size]. */
  function RawPart(arr: seq<int>, n: nat, i: nat): seq<int>
    requires n >= 1 && i < n
  {
    PartBounds(|arr|, n, i);
    arr[i * (|arr| / n)..(i + 1) * (|arr| / n)]
  }

  lemma PartAt(arr: seq<int>, n: nat, i: nat)
    requires n >= 1 && i < n
    ensures |Parts(arr, n)| == n
    ensures Parts(arr, n)[i] == (i, Chunks(arr, n)[i])
  {
    var size := |arr| / n;
    PartBounds(|arr|, n, n - 1);
    var parts := seq(n, k requires 0 <= k < n =>
      PartBounds(|arr|, n, k);
      (k, arr[k * size..(k + 1) * size]));
    assert parts[i] == (i, RawPart(arr, n, i));
    var ps := Parts(arr, n);
    if i == n - 1 && |arr| % n != 0 {
      assert ps[i] == (i, RawPart(arr, n, i) + arr[n * size..]);
    } else {
      assert ps[i] == (i, RawPart(arr, n, i));
    }
    LastPart(arr, n, i);
  }

  /** The raw part is the chunk, except that the last raw part misses the leftover
      exactly when n does not divide the length. */
  lemma LastPart(arr: seq<int>, n: nat, i: nat)
    requires n >= 1 && i < n
    ensures n * (|arr| / n) <= |arr|
    ensures i < n - 1 ==> RawPart(arr, n, i) == Chunks(arr, n)[i]
    ensures i == n - 1 && |arr| % n != 0 ==> RawPart(arr, n, i) + arr[n * (|arr| / n)..] == Chunks(arr, n)[i]
    ensures i == n - 1 && |arr| % n == 0 ==> RawPart(arr, n, i) == Chunks(arr, n)[i]
  {
    var size := |arr| / n;
    PartBounds(|arr|, n, i);
    PartBounds(|arr|, n, n - 1);
    var cs := Chunks(arr, n);
    if i == n - 1 {
      assert (i + 1) * size == n * size;
      assert cs[i] == arr[i * size..];
      if |arr| % n == 0 {
        assert n * size == |arr|;
      }
    }
  }

  /** Whatever order the sorted parts arrive in, sorting them by part id and joining
      them gives a permutation of the array. */
  lemma JoinedPartsPermutation(arr: seq<int>, n: nat, arrived: seq<(int, seq<int>)>)
    requires n >= 1
    requires multiset(arrived) == multiset(SortedParts(Parts(arr, n)))
    ensures multiset(Flatten(Payloads(SortByTag(arrived)))) == multiset(arr)
  {
    var cs := Chunks(arr, n);
    PartsAreChunks(arr, n);
    var sortedChunks := seq(n, i requires 0 <= i < n => MergeSort(cs[i]));
    assert SortedParts(Parts(arr, n)) == Enumerate(sortedChunks);
    SortByTagRestoresOrder(sortedChunks, arrived);
    PayloadsOfEnumerate(sortedChunks);
    FlattenMultiset(sortedChunks, cs);
    ChunksCover(arr, n);
  }

  /** pool.starmap(sort_part, parts), in part order. */
  function SortedParts(parts: seq<(int, seq<int>)>): (r: seq<(int, seq<int>)>)
    ensures |r| == |parts|
    ensures forall k :: 0 <= k < |parts| ==> r[k] == SortPart(parts[k])
  {
    seq(|parts|, k requires 0 <= k < |parts| => SortPart(parts[k]))
  }

  /** One more extend of the concatenation loop appends the next part's data. */
  lemma JoinStep(parts: seq<(int, seq<int>)>, k: nat)
    requires k < |parts|
    ensures Flatten(Payloads(parts[..k + 1])) == Flatten(Payloads(parts[..k])) + parts[k].1
  {
    assert Payloads(parts[..k + 1]) == Payloads(parts[..k]) + [parts[k].1];
    FlattenSnoc(Payloads(parts[..k]), parts[k].1);
  }

  /** parallel_sort (Sort.py:57-84). The pool may hand the sorted parts back in any
      order, modelled by an arbitrary permutation; the sort by part id and the final
      merge_sort make the result the sorted permutation of arr regardless. */
  method ParallelSort(arr: seq<int>, numProcesses: int) returns (finalSorted: seq<int>)
    requires numProcesses >= 1
    ensures Sorted(finalSorted)
    ensures multiset(finalSorted) == multiset(arr)
    ensures finalSorted == MergeSort(arr)
  {
    var parts := Parts(arr, numProcesses);
    var sortedParts := SortedParts(parts);
    var arrived: seq<(int, seq<int>)> :| multiset(arrived) == multiset(sortedParts);
    var ordered := SortByTag(arrived);

    finalSorted := [];
    for k := 0 to |ordered|
      invariant finalSorted == Flatten(Payloads(ordered[..k]))
    {
      JoinStep(ordered, k);
      finalSorted := finalSorted + ordered[k].1;
    }
    assert ordered[..|ordered|] == ordered;
    assert finalSorted == Flatten(Payloads(ordered));

    JoinedPartsPermutation(arr, numProcesses, arrived);

    finalSorted := MergeSort(finalSorted);
    SortedUnique(finalSorted, MergeSort(arr));
  }
}
