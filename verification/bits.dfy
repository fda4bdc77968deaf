/**
 * Chromosomes as the three programs store them: Java strings whose
 * characters are '0' and '1'.  This module holds the character-level
 * vocabulary shared by every operator: bit tests, the flip used by every
 * mutation, the XOR used by Gray decoding, the unsigned binary value that
 * `Integer.parseInt(s, 2)` computes, and counting helpers.
 */
module Bits {

  type Chromosome = seq<char>

  datatype Option<T> = None | Some(value: T)

  /** Largest value of a Java `int`. */
  const INT_MAX: int := 0x7fff_ffff

  predicate IsBit(c: char) { c == '0' || c == '1' }

  predicate IsBitString(s: seq<char>) { forall i :: 0 <= i < |s| ==> IsBit(s[i]) }

  /** Every chromosome of the population has length n. */
  predicate AllOfLength(population: seq<Chromosome>, n: nat)
  {
    forall x :: x in population ==> |x| == n
  }

  /** `c == '0' ? '1' : '0'`: every character other than '0' becomes '0'. */
  function Flip(c: char): (f: char)
    ensures f != c
    ensures IsBit(f)
  {
    if c == '0' then '1' else '0'
  }

  /**
   * `a ^ b` on two bit characters: Java computes the int 0 or 1 and a
   * StringBuilder appends it as that decimal digit.
   */
  function Xor(a: char, b: char): char
    requires IsBit(a) && IsBit(b)
  {
    if a == b then '0' else '1'
  }

  function Repeat(c: char, n: nat): (s: seq<char>)
    ensures |s| == n && forall i :: 0 <= i < n ==> s[i] == c
  {
    seq(n, _ => c)
  }

  function Zeros(n: nat): seq<char> { Repeat('0', n) }

  function Pow2(n: nat): nat
  {
    if n == 0 then 1 else 2 * Pow2(n - 1)
  }

  function BitValue(c: char): nat { if c == '1' then 1 else 0 }

  /** Unsigned value of a bit string, most significant bit first. */
  function BinaryValue(s: seq<char>): nat
  {
    if s == [] then 0 else 2 * BinaryValue(s[..|s| - 1]) + BitValue(s[|s| - 1])
  }

  /**
   * `Integer.parseInt(s, 2)` on a bit string: a NumberFormatException
   * (here None) for the empty string and for values above INT_MAX.
   */
  function ParseBinary(s: seq<char>): Option<nat>
  {
    if |s| == 0 || BinaryValue(s) > INT_MAX then None else Some(BinaryValue(s))
  }

  /** Number of '1' characters. */
  function CountOnes(s: seq<char>): nat
  {
    if s == [] then 0 else CountOnes(s[..|s| - 1]) + BitValue(s[|s| - 1])
  }

  /** Number of positions at which two equally long strings differ. */
  function Hamming(a: seq<char>, b: seq<char>): nat
    requires |a| == |b|
  {
    if a == [] then 0
    else Hamming(a[..|a| - 1], b[..|b| - 1]) + (if a[|a| - 1] != b[|b| - 1] then 1 else 0)
  }

  lemma {:induction false} BinaryValueBound(s: seq<char>)
    ensures BinaryValue(s) < Pow2(|s|)
  {
    if s != [] {
      BinaryValueBound(s[..|s| - 1]);
    }
  }

  lemma {:induction false} BinaryValueOfZeros(n: nat)
    ensures BinaryValue(Zeros(n)) == 0
  {
    if n > 0 {
      assert Zeros(n)[..n - 1] == Zeros(n - 1);
      BinaryValueOfZeros(n - 1);
    }
  }

  /** n ones are the largest n-bit value. */
  lemma {:induction false} BinaryValueOfOnes(n: nat)
    ensures BinaryValue(Repeat('1', n)) == Pow2(n) - 1
  {
    if n > 0 {
      assert Repeat('1', n)[..n - 1] == Repeat('1', n - 1);
      BinaryValueOfOnes(n - 1);
    }
  }

  /** The parity of the value is the last bit: an odd value ends in '1'. */
  lemma BinaryValueParity(s: seq<char>)
    requires s != []
    ensures BinaryValue(s) % 2 == BitValue(s[|s| - 1])
  {
    var x, b := BinaryValue(s[..|s| - 1]), BitValue(s[|s| - 1]);
    assert BinaryValue(s) == 2 * x + b && b < 2;
  }

  /** Leading zeros do not change the value. */
  lemma {:induction false} BinaryValueLeadingZeros(n: nat, t: seq<char>)
    ensures BinaryValue(Zeros(n) + t) == BinaryValue(t)
  {
    if t == [] {
      assert Zeros(n) + t == Zeros(n);
      BinaryValueOfZeros(n);
    } else {
      assert (Zeros(n) + t)[..|Zeros(n) + t| - 1] == Zeros(n) + t[..|t| - 1];
      BinaryValueLeadingZeros(n, t[..|t| - 1]);
    }
  }

  /** Reading p then t: p's value moves up by |t| places. */
  lemma {:induction false} BinaryValueConcat(p: seq<char>, t: seq<char>)
    ensures BinaryValue(p + t) == BinaryValue(p) * Pow2(|t|) + BinaryValue(t)
  {
    if t == [] {
      assert p + t == p;
    } else {
      var u := t[..|t| - 1];
      assert (p + t)[..|p + t| - 1] == p + u;
      BinaryValueConcat(p, u);
      var v, q := BinaryValue(p), Pow2(|u|);
      assert Pow2(|t|) == 2 * q;
      assert 2 * (v * q) == v * (2 * q);
    }
  }

  /** The only bit strings of value 0 are the all-zero ones. */
  lemma {:induction false} ZeroValueIsZeros(s: seq<char>)
    requires IsBitString(s) && BinaryValue(s) == 0
    ensures s == Zeros(|s|)
  {
    if s != [] {
      ZeroValueIsZeros(s[..|s| - 1]);
      assert s == s[..|s| - 1] + [s[|s| - 1]];
    }
  }

  lemma {:induction false} CountOnesConcat(a: seq<char>, b: seq<char>)
    ensures CountOnes(a + b) == CountOnes(a) + CountOnes(b)
  {
    if b == [] {
      assert a + b == a;
    } else {
      assert (a + b)[..|a + b| - 1] == a + b[..|b| - 1];
      CountOnesConcat(a, b[..|b| - 1]);
    }
  }

  /** Replacing one character changes the Hamming distance by exactly whether it differs. */
  lemma {:induction false} HammingUpdate(s: seq<char>, k: nat, x: char)
    requires k < |s|
    ensures Hamming(s, s[k := x]) == if x != s[k] then 1 else 0
  {
    var n := |s|;
    if k == n - 1 {
      assert s[k := x][..n - 1] == s[..n - 1];
      HammingSame(s[..n - 1]);
    } else {
      assert s[k := x][..n - 1] == s[..n - 1][k := x];
      HammingUpdate(s[..n - 1], k, x);
    }
  }

  lemma {:induction false} HammingSame(s: seq<char>)
    ensures Hamming(s, s) == 0
  {
    if s != [] {
      HammingSame(s[..|s| - 1]);
    }
  }
}
