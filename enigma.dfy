/** The rotor cipher of Enigma.py: three rotor wirings, a base-L odometer of rotor
    positions (L = 399, the alphabet size), the per-character substitution and its
    inverse, and class EnigmaLikeCipher, which runs them over mutable positions. */
module Enigma {
  import opened CipherAlphabet

  /** A rotor wiring: a shuffled copy of the alphabet, that is, some permutation of it
      (EnigmaLikeCipher._create_rotor). */
  predicate IsRotor(r: seq<char>)
  {
    multiset(r) == multiset(Alphabet())
  }

  /** A rotor has one slot per alphabet character, holds every alphabet character
      and holds none twice. */
  lemma RotorFacts(r: seq<char>)
    requires IsRotor(r)
    ensures |r| == AlphabetSize
    ensures Distinct(r)
    ensures forall c :: c in r <==> c in Alphabet()
  {
    assert |r| == |multiset(r)| == |multiset(Alphabet())| == |Alphabet()|;
    forall c
      ensures c in r <==> c in Alphabet()
    {
      assert c in r <==> c in multiset(r);
      assert c in Alphabet() <==> c in multiset(Alphabet());
    }
    AlphabetFacts();
    PermutationDistinct(r, Alphabet());
  }

  lemma RotorDistinct(r: seq<char>)
    requires IsRotor(r)
    ensures |r| == AlphabetSize && Distinct(r)
  {
    RotorFacts(r);
  }

  /** Every alphabet character has a slot in a rotor. */
  lemma RotorHolds(r: seq<char>, c: char)
    requires IsRotor(r) && c in Alphabet()
    ensures |r| == AlphabetSize && c in r
  {
    assert |r| == |multiset(r)| == |multiset(Alphabet())| == |Alphabet()|;
    assert c in multiset(Alphabet());
  }

  datatype Rotors = Rotors(rotor1: seq<char>, rotor2: seq<char>, rotor3: seq<char>)

  predicate ValidRotors(rs: Rotors)
  {
    IsRotor(rs.rotor1) && IsRotor(rs.rotor2) && IsRotor(rs.rotor3)
  }

  /** The rotors a key selects: the seeded shuffle is given as a function from seed
      to wiring, applied to the seeds key, key * 2 and key * 3 (Enigma.py:28-30). */
  function KeyRotors(shuffle: int -> seq<char>, key: int): Rotors
  {
    Rotors(shuffle(key), shuffle(key * 2), shuffle(key * 3))
  }

  /** The three rotor positions. */
  datatype Positions = Positions(rotor1Pos: int, rotor2Pos: int, rotor3Pos: int)

  /** The positions of a freshly constructed cipher (Enigma.py:31-33). */
  const Start := Positions(0, 0, 0)

  predicate InRange(p: Positions)
  {
    0 <= p.rotor1Pos < AlphabetSize && 0 <= p.rotor2Pos < AlphabetSize && 0 <= p.rotor3Pos < AlphabetSize
  }

  /** One step of _rotate_rotors: rotor 1 advances, carrying into rotor 2 and then
      rotor 3 when it reaches the alphabet size. */
  function Rotate(p: Positions): Positions
  {
    if p.rotor1Pos + 1 >= AlphabetSize then
      if p.rotor2Pos + 1 >= AlphabetSize then
        if p.rotor3Pos + 1 >= AlphabetSize then Positions(0, 0, 0)
        else Positions(0, 0, p.rotor3Pos + 1)
      else Positions(0, p.rotor2Pos + 1, p.rotor3Pos)
    else Positions(p.rotor1Pos + 1, p.rotor2Pos, p.rotor3Pos)
  }

  /** The positions read as a three-digit base-L number, rotor 1 the lowest digit. */
  function Ordinal(p: Positions): int
  {
    p.rotor1Pos + AlphabetSize * p.rotor2Pos + AlphabetSize * AlphabetSize * p.rotor3Pos
  }

  /** Rotating keeps every position in [0, L) and adds one to the odometer, modulo L^3. */
  lemma RotateIsOdometer(p: Positions)
    requires InRange(p)
    ensures InRange(Rotate(p))
    ensures Ordinal(Rotate(p)) == (Ordinal(p) + 1) % (AlphabetSize * AlphabetSize * AlphabetSize)
  {
    var o := Ordinal(p);
    assert 0 <= o < 399 * 399 * 399;
    if p.rotor1Pos + 1 < AlphabetSize {
      assert o + 1 < 399 * 399 * 399;
    } else if p.rotor2Pos + 1 < AlphabetSize {
      assert o + 1 < 399 * 399 * 399;
    } else if p.rotor3Pos + 1 < AlphabetSize {
      assert o + 1 < 399 * 399 * 399;
    } else {
      assert o + 1 == 399 * 399 * 399;
    }
  }

  /** The positions after one character: only alphabet characters advance the rotors. */
  function Step(p: Positions, c: char): Positions
  {
    if c in Alphabet() then Rotate(p) else p
  }

  /** _get_rotor_char: the wiring read at (pos + offset) mod L. Python's % with a
      positive modulus and Dafny's % agree, both giving a result in [0, L). */
  function RotorChar(rotor: seq<char>, pos: int, offset: int): (r: char)
    requires IsRotor(rotor)
    ensures r in Alphabet()
  {
    RotorFacts(rotor);
    rotor[(pos + offset) % AlphabetSize]
  }

  /** One forward pass through a rotor: the alphabet index of c, shifted by the
      rotor's position, looked up in the wiring (Enigma.py:77-85). */
  function Forward(rotor: seq<char>, pos: int, c: char): (r: char)
    requires IsRotor(rotor) && c in Alphabet()
    ensures r in Alphabet()
  {
    RotorChar(rotor, pos, IndexOf(Alphabet(), c))
  }

  /** One backward pass: the index of c in the wiring, shifted back by the rotor's
      position, read in the alphabet (Enigma.py:98-106). */
  function Backward(rotor: seq<char>, pos: int, c: char): (r: char)
    requires IsRotor(rotor) && c in Alphabet()
    ensures r in Alphabet()
  {
    RotorHolds(rotor, c);
    Alphabet()[(IndexOf(rotor, c) - pos) % AlphabetSize]
  }

  /** For a fixed position, a backward pass undoes a forward pass and vice versa:
      each pass is a bijection on the alphabet. */
  lemma PassesInverse(rotor: seq<char>, pos: int, c: char)
    requires IsRotor(rotor) && c in Alphabet()
    ensures Backward(rotor, pos, Forward(rotor, pos, c)) == c
    ensures Forward(rotor, pos, Backward(rotor, pos, c)) == c
  {
    BackwardForward(rotor, pos, c);
    ForwardBackward(rotor, pos, c);
  }

  lemma BackwardForward(rotor: seq<char>, pos: int, c: char)
    requires IsRotor(rotor) && c in Alphabet()
    ensures Backward(rotor, pos, Forward(rotor, pos, c)) == c
  {
    RotorDistinct(rotor);
    var k := IndexOf(Alphabet(), c);
    var slot := (pos + k) % AlphabetSize;
    var f := rotor[slot];
    assert Forward(rotor, pos, c) == f;
    RotorHolds(rotor, f);
    IndexOfDistinct(rotor, slot);
    ShiftBack(pos, k);
    assert Backward(rotor, pos, f) == Alphabet()[(slot - pos) % AlphabetSize];
  }

  lemma ForwardBackward(rotor: seq<char>, pos: int, c: char)
    requires IsRotor(rotor) && c in Alphabet()
    ensures Forward(rotor, pos, Backward(rotor, pos, c)) == c
  {
    RotorHolds(rotor, c);
    AlphabetDistinct();
    var m := IndexOf(rotor, c);
    var back := (m - pos) % AlphabetSize;
    var b := Alphabet()[back];
    assert Backward(rotor, pos, c) == b;
    IndexOfDistinct(Alphabet(), back);
    ShiftForward(pos, m);
    assert Forward(rotor, pos, b) == rotor[(pos + back) % AlphabetSize];
  }

  lemma ShiftBack(pos: int, k: int)
    requires 0 <= k < AlphabetSize
    ensures ((pos + k) % AlphabetSize - pos) % AlphabetSize == k
  {
    var q := (pos + k) / AlphabetSize;
    assert (pos + k) % AlphabetSize - pos == k - AlphabetSize * q;
  }

  lemma ShiftForward(pos: int, m: int)
    requires 0 <= m < AlphabetSize
    ensures (pos + (m - pos) % AlphabetSize) % AlphabetSize == m
  {
    var q := (m - pos) / AlphabetSize;
    assert pos + (m - pos) % AlphabetSize == m - AlphabetSize * q;
  }

  /** encrypt_char at positions p (Enigma.py:69-88): characters outside the alphabet
      come back unchanged; alphabet characters go through rotors 1, 2 and 3. */
  function EncryptCharAt(rs: Rotors, p: Positions, c: char): (r: char)
    requires ValidRotors(rs)
    ensures c in Alphabet() <==> r in Alphabet()
    ensures c !in Alphabet() ==> r == c
  {
    if c !in Alphabet() then c
    else Forward(rs.rotor3, p.rotor3Pos, Forward(rs.rotor2, p.rotor2Pos, Forward(rs.rotor1, p.rotor1Pos, c)))
  }

  /** decrypt_char at positions p (Enigma.py:90-109): the backward passes through
      rotors 3, 2 and 1. */
  function DecryptCharAt(rs: Rotors, p: Positions, c: char): (r: char)
    requires ValidRotors(rs)
    ensures c in Alphabet() <==> r in Alphabet()
    ensures c !in Alphabet() ==> r == c
  {
    if c !in Alphabet() then c
    else Backward(rs.rotor1, p.rotor1Pos, Backward(rs.rotor2, p.rotor2Pos, Backward(rs.rotor3, p.rotor3Pos, c)))
  }

  /** From the same positions, decrypting an encrypted character gives it back, and
      both make the same single advance of the rotors. */
  lemma DecryptEncryptChar(rs: Rotors, p: Positions, c: char)
    requires ValidRotors(rs)
    ensures DecryptCharAt(rs, p, EncryptCharAt(rs, p, c)) == c
    ensures Step(p, EncryptCharAt(rs, p, c)) == Step(p, c)
  {
    if c in Alphabet() {
      var c1 := Forward(rs.rotor1, p.rotor1Pos, c);
      var c2 := Forward(rs.rotor2, p.rotor2Pos, c1);
      PassesInverse(rs.rotor1, p.rotor1Pos, c);
      PassesInverse(rs.rotor2, p.rotor2Pos, c1);
      PassesInverse(rs.rotor3, p.rotor3Pos, c2);
    }
  }

  /** From the same positions, encrypting a decrypted character gives it back. */
  lemma EncryptDecryptChar(rs: Rotors, p: Positions, c: char)
    requires ValidRotors(rs)
    ensures EncryptCharAt(rs, p, DecryptCharAt(rs, p, c)) == c
  {
    if c in Alphabet() {
      var d3 := Backward(rs.rotor3, p.rotor3Pos, c);
      var d2 := Backward(rs.rotor2, p.rotor2Pos, d3);
      PassesInverse(rs.rotor3, p.rotor3Pos, c);
      PassesInverse(rs.rotor2, p.rotor2Pos, d3);
      PassesInverse(rs.rotor1, p.rotor1Pos, d2);
    }
  }

  /** For fixed positions, encrypt_char is a bijection on the alphabet: no two
      characters share a ciphertext, and every alphabet character is the ciphertext
      of some alphabet character. */
  lemma EncryptCharBijective(rs: Rotors, p: Positions, c1: char, c2: char, d: char)
    requires ValidRotors(rs)
    ensures EncryptCharAt(rs, p, c1) == EncryptCharAt(rs, p, c2) ==> c1 == c2
    ensures d in Alphabet() ==>
      DecryptCharAt(rs, p, d) in Alphabet() && EncryptCharAt(rs, p, DecryptCharAt(rs, p, d)) == d
  {
    DecryptEncryptChar(rs, p, c1);
    DecryptEncryptChar(rs, p, c2);
    EncryptDecryptChar(rs, p, d);
  }

  /** encrypt from positions p: encrypt_char folded left to right over the text,
      threading the positions (Enigma.py:111-112). */
  function EncryptFrom(rs: Rotors, p: Positions, s: string): (r: string)
    requires ValidRotors(rs)
    ensures |r| == |s|
    decreases |s|
  {
    if |s| == 0 then []
    else [EncryptCharAt(rs, p, s[0])] + EncryptFrom(rs, Step(p, s[0]), s[1..])
  }

  /** decrypt from positions p (Enigma.py:114-115). */
  function DecryptFrom(rs: Rotors, p: Positions, s: string): (r: string)
    requires ValidRotors(rs)
    ensures |r| == |s|
    decreases |s|
  {
    if |s| == 0 then []
    else [DecryptCharAt(rs, p, s[0])] + DecryptFrom(rs, Step(p, s[0]), s[1..])
  }

  /** Position by position, encryption keeps alphabet membership and leaves characters
      outside the alphabet where they are. */
  lemma {:induction false} EncryptFromShape(rs: Rotors, p: Positions, s: string)
    requires ValidRotors(rs)
    ensures forall k :: 0 <= k < |s| ==> (s[k] in Alphabet() <==> EncryptFrom(rs, p, s)[k] in Alphabet())
    ensures forall k :: 0 <= k < |s| && s[k] !in Alphabet() ==> EncryptFrom(rs, p, s)[k] == s[k]
    decreases |s|
  {
    if |s| > 0 {
      EncryptFromShape(rs, Step(p, s[0]), s[1..]);
      var r, tail := EncryptFrom(rs, p, s), EncryptFrom(rs, Step(p, s[0]), s[1..]);
      assert forall k :: 0 < k < |s| ==> r[k] == tail[k - 1] && s[k] == s[1..][k - 1];
    }
  }

  /** Position by position, decryption keeps alphabet membership and leaves characters
      outside the alphabet where they are. */
  lemma {:induction false} DecryptFromShape(rs: Rotors, p: Positions, s: string)
    requires ValidRotors(rs)
    ensures forall k :: 0 <= k < |s| ==> (s[k] in Alphabet() <==> DecryptFrom(rs, p, s)[k] in Alphabet())
    ensures forall k :: 0 <= k < |s| && s[k] !in Alphabet() ==> DecryptFrom(rs, p, s)[k] == s[k]
    decreases |s|
  {
    if |s| > 0 {
      DecryptFromShape(rs, Step(p, s[0]), s[1..]);
      var r, tail := DecryptFrom(rs, p, s), DecryptFrom(rs, Step(p, s[0]), s[1..]);
      assert forall k :: 0 < k < |s| ==> r[k] == tail[k - 1] && s[k] == s[1..][k - 1];
    }
  }

  /** The positions after processing s from p, the same for both directions. */
  function PositionsAfter(p: Positions, s: string): Positions
    decreases |s|
  {
    if |s| == 0 then p else PositionsAfter(Step(p, s[0]), s[1..])
  }

  /** The positions after a text stay in range. */
  lemma {:induction false} PositionsAfterInRange(p: Positions, s: string)
    requires InRange(p)
    ensures InRange(PositionsAfter(p, s))
    decreases |s|
  {
    if |s| > 0 {
      RotateIsOdometer(p);
      PositionsAfterInRange(Step(p, s[0]), s[1..]);
    }
  }

  /** Decryption from the same positions undoes encryption of any string, and the
      two run their rotors in lock-step. */
  lemma {:induction false} DecryptEncrypt(rs: Rotors, p: Positions, s: string)
    requires ValidRotors(rs)
    ensures DecryptFrom(rs, p, EncryptFrom(rs, p, s)) == s
    ensures PositionsAfter(p, EncryptFrom(rs, p, s)) == PositionsAfter(p, s)
    decreases |s|
  {
    if |s| > 0 {
      var e := EncryptFrom(rs, p, s);
      DecryptEncryptChar(rs, p, s[0]);
      DecryptEncrypt(rs, Step(p, s[0]), s[1..]);
      assert e[0] == EncryptCharAt(rs, p, s[0]);
      assert e[1..] == EncryptFrom(rs, Step(p, s[0]), s[1..]);
      assert s == [s[0]] + s[1..];
    }
  }

  /** Encryption from the same positions undoes decryption of any string. */
  lemma {:induction false} EncryptDecrypt(rs: Rotors, p: Positions, s: string)
    requires ValidRotors(rs)
    ensures EncryptFrom(rs, p, DecryptFrom(rs, p, s)) == s
    decreases |s|
  {
    if |s| > 0 {
      var d := DecryptFrom(rs, p, s);
      EncryptDecryptChar(rs, p, s[0]);
      EncryptDecrypt(rs, Step(p, s[0]), s[1..]);
      assert d[0] == DecryptCharAt(rs, p, s[0]);
      assert d[1..] == DecryptFrom(rs, Step(p, s[0]), s[1..]);
      assert Step(p, d[0]) == Step(p, s[0]);
      assert s == [s[0]] + s[1..];
    }
  }

  /** The cipher object: its rotors are fixed at construction, its positions move. */
  class EnigmaLikeCipher {
    const key: int
    const allChars: seq<char>
    const rotor1: seq<char>
    const rotor2: seq<char>
    const rotor3: seq<char>
    var rotor1Pos: int
    var rotor2Pos: int
    var rotor3Pos: int

    ghost predicate Valid()
      reads this
    {
      allChars == Alphabet() && ValidRotors(Wiring()) && InRange(Pos())
    }

    function Wiring(): Rotors
    {
      Rotors(rotor1, rotor2, rotor3)
    }

    function Pos(): Positions
      reads this
    {
      Positions(rotor1Pos, rotor2Pos, rotor3Pos)
    }

    /** __init__: the wirings for key, key * 2 and key * 3, all positions at 0. */
    constructor (key: int, shuffle: int -> seq<char>)
      requires ValidRotors(KeyRotors(shuffle, key))
      ensures Valid()
      ensures this.key == key && Wiring() == KeyRotors(shuffle, key) && Pos() == Start
    {
      this.key := key;
      allChars := Alphabet();
      rotor1 := shuffle(key);
      rotor2 := shuffle(key * 2);
      rotor3 := shuffle(key * 3);
      rotor1Pos, rotor2Pos, rotor3Pos := 0, 0, 0;
    }

    /** _rotate_rotors. */
    method RotateRotors()
      requires Valid()
      modifies this
      ensures Valid()
      ensures Pos() == Rotate(old(Pos()))
    {
      rotor1Pos := rotor1Pos + 1;
      if rotor1Pos >= |allChars| {
        rotor1Pos := 0;
        rotor2Pos := rotor2Pos + 1;
        if rotor2Pos >= |allChars| {
          rotor2Pos := 0;
          rotor3Pos := rotor3Pos + 1;
          if rotor3Pos >= |allChars| {
            rotor3Pos := 0;
          }
        }
      }
    }

    /** encrypt_char: the substitution at the current positions, then one advance
      for an alphabet character and none for any other. */
    method EncryptChar(c: char) returns (r: char)
      requires Valid()
      modifies this
      ensures Valid()
      ensures r == EncryptCharAt(Wiring(), old(Pos()), c)
      ensures Pos() == Step(old(Pos()), c)
    {
      if c !in allChars {
        return c;
      }
      var idx := IndexOf(allChars, c);
      var enc := RotorChar(rotor1, rotor1Pos, idx);
      idx := IndexOf(allChars, enc);
      enc := RotorChar(rotor2, rotor2Pos, idx);
      idx := IndexOf(allChars, enc);
      enc := RotorChar(rotor3, rotor3Pos, idx);
      RotateRotors();
      return enc;
    }

    /** decrypt_char: the inverse substitution at the current positions, then the
      same advance as encrypt_char. */
    method DecryptChar(c: char) returns (r: char)
      requires Valid()
      modifies this
      ensures Valid()
      ensures r == DecryptCharAt(Wiring(), old(Pos()), c)
      ensures Pos() == Step(old(Pos()), c)
    {
      if c !in allChars {
        return c;
      }
      RotorHolds(rotor3, c);
      var dec := allChars[(IndexOf(rotor3, c) - rotor3Pos) % |allChars|];
      ghost var d3 := dec;
      assert d3 == Backward(rotor3, rotor3Pos, c);
      RotorHolds(rotor2, dec);
      dec := allChars[(IndexOf(rotor2, dec) - rotor2Pos) % |allChars|];
      ghost var d2 := dec;
      assert d2 == Backward(rotor2, rotor2Pos, d3);
      RotorHolds(rotor1, dec);
      dec := allChars[(IndexOf(rotor1, dec) - rotor1Pos) % |allChars|];
      assert dec == Backward(rotor1, rotor1Pos, d2);
      assert dec == DecryptCharAt(Wiring(), Pos(), c);
      RotateRotors();
      return dec;
    }

    /** encrypt: encrypt_char on each character in turn. */
    method Encrypt(text: string) returns (r: string)
      requires Valid()
      modifies this
      ensures Valid()
      ensures r == EncryptFrom(Wiring(), old(Pos()), text)
      ensures Pos() == PositionsAfter(old(Pos()), text)
    {
      r := [];
      var i := 0;
      while i < |text|
        invariant 0 <= i <= |text| && Valid()
        invariant r + EncryptFrom(Wiring(), Pos(), text[i..]) == EncryptFrom(Wiring(), old(Pos()), text)
        invariant PositionsAfter(Pos(), text[i..]) == PositionsAfter(old(Pos()), text)
      {
        assert text[i..][1..] == text[i + 1..];
        var e := EncryptChar(text[i]);
        r := r + [e];
        i := i + 1;
      }
    }

    /** decrypt: decrypt_char on each character in turn. */
    method Decrypt(text: string) returns (r: string)
      requires Valid()
      modifies this
      ensures Valid()
      ensures r == DecryptFrom(Wiring(), old(Pos()), text)
      ensures Pos() == PositionsAfter(old(Pos()), text)
    {
      r := [];
      var i := 0;
      while i < |text|
        invariant 0 <= i <= |text| && Valid()
        invariant r + DecryptFrom(Wiring(), Pos(), text[i..]) == DecryptFrom(Wiring(), old(Pos()), text)
        invariant PositionsAfter(Pos(), text[i..]) == PositionsAfter(old(Pos()), text)
      {
        assert text[i..][1..] == text[i + 1..];
        var d := DecryptChar(text[i]);
        r := r + [d];
        i := i + 1;
      }
    }
  }
}
