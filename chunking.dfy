/** The n-way split used by both programs: n contiguous pieces of len // n
    elements each, the last piece running to the end of the input. */
module Chunking {
  import opened Sequences

  /** Where piece i starts: i * (len // n). */
  function ChunkStart(len: nat, n: nat, i: nat): nat
    requires n >= 1
  {
    i * (len / n)
  }

  /** Where piece i ends: (i + 1) * (len // n), or len for the last piece. */
  function ChunkEnd(len: nat, n: nat, i: nat): nat
    requires n >= 1
  {
    if i < n - 1 then (i + 1) * (len / n) else len
  }

  lemma ChunkBounds(len: nat, n: nat, i: nat)
    requires n >= 1 && i < n
    ensures ChunkStart(len, n, i) <= ChunkEnd(len, n, i) <= len
  {
    var size := len / n;
    assert n * size <= len;
    if i < n - 1 {
      MulMono(i + 1, n, size);
    } else {
      MulMono(i, n, size);
    }
  }

  lemma MulMono(i: nat, j: nat, k: nat)
    requires i <= j
    ensures i * k <= j * k
  {
  }

  /** The pieces themselves (Enigma.py:181-186, Sort.py:62-66). */
  function Chunks<T>(s: seq<T>, n: nat): (r: seq<seq<T>>)
    requires n >= 1
    ensures |r| == n
    ensures forall i :: 0 <= i < n ==>
      ChunkStart(|s|, n, i) <= ChunkEnd(|s|, n, i) <= |s| &&
      r[i] == s[ChunkStart(|s|, n, i)..ChunkEnd(|s|, n, i)]
  {
    seq(n, i requires 0 <= i < n =>
      ChunkBounds(|s|, n, i);
      s[ChunkStart(|s|, n, i)..ChunkEnd(|s|, n, i)])
  }

  /** Every piece but the last holds len // n elements; the last one holds the rest. */
  lemma ChunkLengths<T>(s: seq<T>, n: nat)
    requires n >= 1
    ensures forall i :: 0 <= i < n - 1 ==> |Chunks(s, n)[i]| == |s| / n
    ensures |Chunks(s, n)[n - 1]| == |s| - (n - 1) * (|s| / n)
  {
  }

  /** The first k pieces, joined, are the first k * (len // n) elements. */
  lemma {:induction false} ChunksPrefix<T>(s: seq<T>, n: nat, k: nat)
    requires n >= 1 && k <= n - 1
    ensures k * (|s| / n) <= |s|
    ensures Flatten(Chunks(s, n)[..k]) == s[..k * (|s| / n)]
  {
    var cs := Chunks(s, n);
    if k == 0 {
      assert cs[..0] == [];
    } else {
      ChunksPrefix(s, n, k - 1);
      assert cs[..k] == cs[..k - 1] + [cs[k - 1]];
      FlattenSnoc(cs[..k - 1], cs[k - 1]);
      assert cs[k - 1] == s[(k - 1) * (|s| / n)..k * (|s| / n)];
      assert s[..k * (|s| / n)] == s[..(k - 1) * (|s| / n)] + s[(k - 1) * (|s| / n)..k * (|s| / n)];
    }
  }

  /** The pieces cover the input exactly once, in order, with no gap or overlap. */
  lemma ChunksCover<T>(s: seq<T>, n: nat)
    requires n >= 1
    ensures Flatten(Chunks(s, n)) == s
  {
    var cs := Chunks(s, n);
    ChunksPrefix(s, n, n - 1);
    assert cs == cs[..n - 1] + [cs[n - 1]];
    FlattenSnoc(cs[..n - 1], cs[n - 1]);
    assert s == s[..(n - 1) * (|s| / n)] + s[(n - 1) * (|s| / n)..];
  }

  /** With more pieces than elements, every piece but the last is empty and the last is everything. */
  lemma ChunksWhenFewElements<T>(s: seq<T>, n: nat)
    requires n > |s|
    ensures forall i :: 0 <= i < n - 1 ==> Chunks(s, n)[i] == []
    ensures Chunks(s, n)[n - 1] == s
  {
    assert |s| / n == 0;
  }

  /** Splitting is determined by the length alone: pieces of the same lengths as the
      pieces of s, joined and split again with the same n, come back unchanged. */
  lemma {:induction false} ChunksOfSameShape<T>(s: seq<T>, n: nat, ds: seq<seq<T>>)
    requires n >= 1
    requires |ds| == n
    requires forall i :: 0 <= i < n ==> |ds[i]| == |Chunks(s, n)[i]|
    ensures |Flatten(ds)| == |s|
    ensures Chunks(Flatten(ds), n) == ds
  {
    var cs := Chunks(s, n);
    var t := Flatten(ds);
    FlattenSameShape(ds, cs);
    ChunksCover(s, n);
    var ct := Chunks(t, n);
    forall i | 0 <= i < n
      ensures ct[i] == ds[i]
    {
      PieceAt(s, n, ds, i);
    }
  }

  lemma {:induction false} PieceAt<T>(s: seq<T>, n: nat, ds: seq<seq<T>>, i: nat)
    requires n >= 1 && i < n
    requires |ds| == n
    requires forall k :: 0 <= k < n ==> |ds[k]| == |Chunks(s, n)[k]|
    requires |Flatten(ds)| == |s|
    ensures ChunkStart(|s|, n, i) <= ChunkEnd(|s|, n, i) <= |s|
    ensures Flatten(ds)[ChunkStart(|s|, n, i)..ChunkEnd(|s|, n, i)] == ds[i]
  {
    var cs := Chunks(s, n);
    ChunkBounds(|s|, n, i);
    var pre, post := Flatten(ds[..i]), Flatten(ds[i + 1..]);
    assert ds == (ds[..i] + [ds[i]]) + ds[i + 1..];
    FlattenAppend(ds[..i] + [ds[i]], ds[i + 1..]);
    FlattenSnoc(ds[..i], ds[i]);
    assert Flatten(ds) == pre + ds[i] + post;
    assert forall k :: 0 <= k < i ==> |ds[..i][k]| == |cs[..i][k]|;
    FlattenSameShape(ds[..i], cs[..i]);
    ChunksPrefix(s, n, i);
    var start, end := ChunkStart(|s|, n, i), ChunkEnd(|s|, n, i);
    assert |pre| == start;
    assert end == start + |ds[i]|;
    MiddleSlice(pre, ds[i], post);
  }

  lemma MiddleSlice<T>(pre: seq<T>, x: seq<T>, post: seq<T>)
    ensures (pre + x + post)[|pre|..|pre| + |x|] == x
  {
  }
}
