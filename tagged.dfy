/** Pairs (task id, payload) as both programs pass them back from their
    worker pools, and `list.sort(key=lambda x: x[0])` on a list of them. */
module Tagged {
  import opened Sequences

  /** The sort key of a pair: its task id, x[0]. */
  function Tag<T>(x: (int, T)): int
  {
    x.0
  }

  /** The tasks as submitted: [(0, xs[0]), (1, xs[1]), ...]. */
  function Enumerate<T>(xs: seq<T>): (r: seq<(int, T)>)
    ensures |r| == |xs|
    ensures forall i :: 0 <= i < |xs| ==> r[i] == (i, xs[i])
  {
    seq(|xs|, i requires 0 <= i < |xs| => (i, xs[i]))
  }

  lemma EnumerateSnoc<T>(xs: seq<T>, i: nat)
    requires i < |xs|
    ensures Enumerate(xs)[..i + 1] == Enumerate(xs)[..i] + [(i, xs[i])]
  {
  }

  /** The payloads of the pairs, in order: [chunk for _, chunk in results]. */
  function Payloads<T>(s: seq<(int, T)>): (r: seq<T>)
    ensures |r| == |s|
    ensures forall i :: 0 <= i < |s| ==> r[i] == s[i].1
  {
    seq(|s|, i requires 0 <= i < |s| => s[i].1)
  }

  lemma PayloadsOfEnumerate<T>(xs: seq<T>)
    ensures Payloads(Enumerate(xs)) == xs
  {
  }

  /** Inserts x before the first element whose tag is not smaller. */
  function InsertByTag<T>(x: (int, T), s: seq<(int, T)>): (r: seq<(int, T)>)
    ensures multiset(r) == multiset(s) + multiset{x}
    ensures SortedBy(s, Tag) ==> SortedBy(r, Tag)
  {
    if |s| == 0 then [x]
    else if x.0 <= s[0].0 then [x] + s
    else
      var rest := InsertByTag(x, s[1..]);
      assert s == [s[0]] + s[1..];
      InsertStep(x, s, rest);
      [s[0]] + rest
  }

  /** Putting the head of s back in front of x inserted into the tail keeps the order. */
  lemma InsertStep<T>(x: (int, T), s: seq<(int, T)>, rest: seq<(int, T)>)
    requires |s| > 0 && s[0].0 < x.0
    requires multiset(rest) == multiset(s[1..]) + multiset{x}
    requires SortedBy(s[1..], Tag) ==> SortedBy(rest, Tag)
    ensures SortedBy(s, Tag) ==> SortedBy([s[0]] + rest, Tag)
  {
    if SortedBy(s, Tag) {
      assert SortedBy(s[1..], Tag);
      var r := [s[0]] + rest;
      forall k | 0 <= k < |rest|
        ensures s[0].0 <= rest[k].0
      {
        assert rest[k] in multiset(rest);
        if rest[k] != x {
          assert rest[k] in multiset(s[1..]);
          var i :| 0 <= i < |s[1..]| && s[1..][i] == rest[k];
          assert s[i + 1] == rest[k];
        }
      }
      assert forall k :: 0 < k < |r| ==> r[k] == rest[k - 1];
    }
  }

  /** Python's sort by task id, as an insertion sort: the result is ordered by tag
      and is a permutation of the input. */
  function SortByTag<T>(s: seq<(int, T)>): (r: seq<(int, T)>)
    ensures multiset(r) == multiset(s)
    ensures SortedBy(r, Tag)
  {
    if |s| == 0 then []
    else
      assert s == [s[0]] + s[1..];
      InsertByTag(s[0], SortByTag(s[1..]))
  }

  /** Sorting by task id undoes any arrival order: whatever permutation of the
      submitted tasks comes back, the sort puts it back in submission order. */
  lemma SortByTagRestoresOrder<T>(xs: seq<T>, arrived: seq<(int, T)>)
    requires multiset(arrived) == multiset(Enumerate(xs))
    ensures SortByTag(arrived) == Enumerate(xs)
  {
    EnumerateOrdered(xs);
    SortedByUnique(Enumerate(xs), SortByTag(arrived), Tag);
  }

  /** The submitted tasks are in task-id order, and no two carry the same id. */
  lemma EnumerateOrdered<T>(xs: seq<T>)
    ensures SortedBy(Enumerate(xs), Tag)
    ensures KeyInjective(Enumerate(xs), Tag)
  {
    var e := Enumerate(xs);
    forall x, y | x in e && y in e && Tag(x) == Tag(y)
      ensures x == y
    {
      var i :| 0 <= i < |e| && e[i] == x;
      var j :| 0 <= j < |e| && e[j] == y;
    }
  }
}
