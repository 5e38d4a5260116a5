/** The cipher's alphabet (EnigmaLikeCipher._get_unicode_chars): printable ASCII,
    Cyrillic and Cyrillic Supplement, deduplicated and sorted by code point;
    and `list.index`, the linear search the cipher uses to find a character. */
module CipherAlphabet {

  /** 95 printable ASCII characters, 256 Cyrillic, 48 Cyrillic Supplement. */
  const AlphabetSize: nat := 399

  /** [chr(i) for i in range(lo, hi)]. */
  function CodePoints(lo: nat, hi: nat): (r: seq<char>)
    requires lo <= hi <= 0xD800
    ensures |r| == hi - lo
    ensures forall k :: 0 <= k < |r| ==> r[k] as int == lo + k
  {
    seq(hi - lo, k requires 0 <= k < hi - lo => (lo + k) as char)
  }

  /** The list of characters as collected, before `sorted(list(set(...)))`. */
  function Collected(): seq<char>
  {
    CodePoints(32, 127) + CodePoints(0x0400, 0x04FF + 1) + CodePoints(0x0500, 0x052F + 1)
  }

  /** The code point ranges the alphabet is built from. */
  predicate InRanges(c: char)
  {
    32 <= c as int <= 126 || 0x0400 <= c as int <= 0x052F
  }

  predicate StrictlyIncreasing(s: seq<char>)
  {
    forall i, j :: 0 <= i < j < |s| ==> s[i] < s[j]
  }

  /** No character occurs twice. */
  predicate Distinct(s: seq<char>)
  {
    forall i, j :: 0 <= i < j < |s| ==> s[i] != s[j]
  }

  /** What `sorted(list(set(chars)))` produces from chars: the characters of chars,
      each once, in increasing order. */
  ghost predicate IsSortedSetOf(r: seq<char>, chars: seq<char>)
  {
    StrictlyIncreasing(r) && forall c :: c in r <==> c in chars
  }

  /** Position k of the collected list holds code point 32 + k in the ASCII part and
      0x0400 + (k - 95) after it, since the two Cyrillic blocks are adjacent. */
  lemma CollectedLayout()
    ensures |Collected()| == AlphabetSize
    ensures forall k :: 0 <= k < |Collected()| ==>
      Collected()[k] as int == if k < 95 then 32 + k else 0x0400 + (k - 95)
  {
    var a, b, c := CodePoints(32, 127), CodePoints(0x0400, 0x04FF + 1), CodePoints(0x0500, 0x052F + 1);
    assert Collected() == a + b + c;
    forall k | 0 <= k < |Collected()|
      ensures Collected()[k] as int == if k < 95 then 32 + k else 0x0400 + (k - 95)
    {
      if k < 95 {
        assert Collected()[k] == a[k];
      } else if k < 95 + 256 {
        assert Collected()[k] == b[k - 95];
      } else {
        assert Collected()[k] == c[k - 95 - 256];
      }
    }
  }

  /** The alphabet of the cipher (Enigma.py:36-46), written in closed form: the 95
      printable ASCII characters followed by the 304 code points from 0x0400 on.
      AlphabetIsSortedSet shows it is `sorted(list(set(chars)))` of the collected
      list. */
  function Alphabet(): (r: seq<char>)
    ensures |r| == AlphabetSize
  {
    seq(AlphabetSize, k requires 0 <= k < AlphabetSize =>
      if k < 95 then (32 + k) as char else (0x0400 + (k - 95)) as char)
  }

  /** The collected list is already the alphabet: no character occurs in it twice and
      it is in increasing order. */
  lemma CollectedIsAlphabet()
    ensures Collected() == Alphabet()
  {
    CollectedLayout();
    var a := Alphabet();
    assert forall k :: 0 <= k < AlphabetSize ==> Collected()[k] as int == a[k] as int;
  }

  /** The alphabet is strictly increasing and holds exactly the characters of the
      three code point ranges. */
  lemma AlphabetFacts()
    ensures StrictlyIncreasing(Alphabet())
    ensures Distinct(Alphabet())
    ensures forall c :: c in Alphabet() <==> InRanges(c)
  {
    var r := Alphabet();
    forall c | InRanges(c)
      ensures c in r
    {
      var k := if c as int <= 126 then c as int - 32 else c as int - 0x0400 + 95;
      assert r[k] as int == c as int;
    }
  }

  lemma AlphabetDistinct()
    ensures Distinct(Alphabet())
  {
    AlphabetFacts();
  }

  /** The collected list is already strictly increasing, so deduplicating and sorting
      it changes nothing: the alphabet is exactly `sorted(list(set(chars)))`, and no
      other sequence is. */
  lemma AlphabetIsSortedSet(r: seq<char>)
    ensures IsSortedSetOf(Alphabet(), Collected())
    ensures IsSortedSetOf(r, Collected()) ==> r == Alphabet()
  {
    AlphabetFacts();
    CollectedIsAlphabet();
    if IsSortedSetOf(r, Collected()) {
      StrictlyIncreasingUnique(r, Alphabet());
    }
  }

  /** Two strictly increasing sequences with the same elements are equal. */
  lemma {:induction false} StrictlyIncreasingUnique(a: seq<char>, b: seq<char>)
    requires StrictlyIncreasing(a) && StrictlyIncreasing(b)
    requires forall c :: c in a <==> c in b
    ensures a == b
  {
    assert |a| > 0 ==> a[0] in b;
    assert |b| > 0 ==> b[0] in a;
    if |a| > 0 && |b| > 0 {
      assert a[0] == b[0];
      forall c
        ensures c in a[1..] <==> c in b[1..]
      {
        if c in a[1..] {
          assert c in a && c != a[0];
          assert c in b;
        }
        if c in b[1..] {
          assert c in b && c != b[0];
          assert c in a;
        }
      }
      StrictlyIncreasingUnique(a[1..], b[1..]);
      assert a == [a[0]] + a[1..] && b == [b[0]] + b[1..];
    }
  }

  /** `s.index(c)`: the position of the first occurrence of c in s. */
  function IndexOf(s: seq<char>, c: char): (k: nat)
    requires c in s
    ensures k < |s| && s[k] == c
    ensures forall i :: 0 <= i < k ==> s[i] != c
  {
    if s[0] == c then 0 else 1 + IndexOf(s[1..], c)
  }

  /** In a duplicate-free sequence, the index of the element at k is k. */
  lemma IndexOfDistinct(s: seq<char>, k: nat)
    requires Distinct(s) && k < |s|
    ensures IndexOf(s, s[k]) == k
  {
  }

  /** Each alphabet character sits at the position given by its code point. */
  lemma AlphabetIndex(k: nat)
    requires k < AlphabetSize
    ensures IndexOf(Alphabet(), Alphabet()[k]) == k
  {
    AlphabetFacts();
    IndexOfDistinct(Alphabet(), k);
  }

  /** A duplicate-free sequence holds each character at most once. */
  lemma {:induction false} DistinctMultiplicity(s: seq<char>, x: char)
    requires Distinct(s)
    ensures multiset(s)[x] <= 1
  {
    if |s| > 0 {
      assert s == [s[0]] + s[1..];
      assert x == s[0] ==> x !in s[1..];
      DistinctMultiplicity(s[1..], x);
    }
  }

  /** A character at two positions occurs at least twice. */
  lemma RepeatMultiplicity(s: seq<char>, i: nat, j: nat)
    requires i < j < |s| && s[i] == s[j]
    ensures multiset(s)[s[i]] >= 2
  {
    assert s == s[..j] + s[j..];
    assert s[i] in s[..j] && s[j] in s[j..];
  }

  /** A permutation of a duplicate-free sequence is duplicate-free. */
  lemma PermutationDistinct(r: seq<char>, s: seq<char>)
    requires Distinct(s) && multiset(r) == multiset(s)
    ensures Distinct(r)
  {
    forall i, j | 0 <= i < j < |r|
      ensures r[i] != r[j]
    {
      if r[i] == r[j] {
        RepeatMultiplicity(r, i, j);
        DistinctMultiplicity(s, r[i]);
      }
    }
  }
}
