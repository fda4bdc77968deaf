/**
 * The minimisation program: 20-bit Gray-coded chromosomes, a population
 * sorted in place by the objective of the decoded value, overlapping
 * parent pairs (i, i + 1), and a separate mutation pass that flips one
 * random bit of a chromosome.  The objective is floating point and is
 * abstracted to an integer score; every random draw is a parameter.
 */
module GeneticAlgorithmMin {
  import opened Bits
  import opened Ranking
  import opened OnePoint
  import GeneticAlgorithm

  const POPULATION_SIZE := 50
  const CHROMOSOME_LENGTH := 20
  const CROSSOVER_RATE: real := 0.85
  const MUTATION_RATE: real := 0.1
  const MAX_GENERATIONS := 100

  // --------------------------------------------- Java int bit operations

  /** Java's `a ^ b` on two non-negative ints: bitwise exclusive or. */
  function BitXor(a: nat, b: nat): nat
    decreases a
  {
    if a == 0 then b
    else if b == 0 then a
    else 2 * BitXor(a / 2, b / 2) + (if a % 2 == b % 2 then 0 else 1)
  }

  /** Java's `x >> shift` on a non-negative int (shift below 32): halve, shift times. */
  function ShiftRight(x: nat, shift: nat): (r: nat)
    ensures r <= x
    ensures x < Pow2(shift) ==> r == 0
  {
    if shift == 0 then x else ShiftRight(x / 2, shift - 1)
  }

  /** Exclusive or never sets a bit above the operands' highest one. */
  lemma {:induction false} BitXorBound(a: nat, b: nat, n: nat)
    requires a < Pow2(n) && b < Pow2(n)
    ensures BitXor(a, b) < Pow2(n)
    decreases a
  {
    if a != 0 && b != 0 {
      assert n > 0;
      BitXorBound(a / 2, b / 2, n - 1);
    }
  }

  // ------------------------------------------------------- Gray decoding

  /**
   * The value decodeGray's loop holds when its shift variable reaches
   * `shift` (1, 2, 4, ...): the parsed value XOR its own shifts by every
   * power of two below `shift`.  Every shift is of the original value.
   */
  function FoldBelow(binary: nat, shift: nat): nat
    decreases shift
  {
    if shift <= 1 then binary
    else BitXor(FoldBelow(binary, shift / 2), ShiftRight(binary, shift / 2))
  }

  /** decodeGray's integer result: the loop stops at the first shift of at least 20, which is 32. */
  function Fold(binary: nat): nat
  {
    FoldBelow(binary, 32)
  }

  /** The fold is g ^ (g >> 1) ^ (g >> 2) ^ (g >> 4) ^ (g >> 8) ^ (g >> 16). */
  lemma FoldIsFiveShifts(g: nat)
    ensures Fold(g) ==
      BitXor(BitXor(BitXor(BitXor(BitXor(g, ShiftRight(g, 1)), ShiftRight(g, 2)), ShiftRight(g, 4)),
                    ShiftRight(g, 8)), ShiftRight(g, 16))
  {
    assert FoldBelow(g, 2) == BitXor(g, ShiftRight(g, 1));
    assert FoldBelow(g, 4) == BitXor(FoldBelow(g, 2), ShiftRight(g, 2));
    assert FoldBelow(g, 8) == BitXor(FoldBelow(g, 4), ShiftRight(g, 4));
    assert FoldBelow(g, 16) == BitXor(FoldBelow(g, 8), ShiftRight(g, 8));
    assert FoldBelow(g, 32) == BitXor(FoldBelow(g, 16), ShiftRight(g, 16));
  }

  /** No shift or XOR of the fold sets a bit at or above the value's width. */
  lemma {:induction false} FoldBound(binary: nat, shift: nat, n: nat)
    requires binary < Pow2(n)
    ensures FoldBelow(binary, shift) < Pow2(n)
    decreases shift
  {
    if shift > 1 {
      FoldBound(binary, shift / 2, n);
      BitXorBound(FoldBelow(binary, shift / 2), ShiftRight(binary, shift / 2), n);
    }
  }

  /**
   * Integer part of decodeGray: `Integer.parseInt(gray, 2)` (None where it
   * throws), then `result ^= binary >> shift` for shift = 1, 2, 4, 8, 16.
   * A 20-bit chromosome always parses, and decodes below 2^20.
   */
  method DecodeGray(gray: seq<char>) returns (index: Option<nat>)
    requires IsBitString(gray)
    ensures index.None? <==> ParseBinary(gray).None?
    ensures index.Some? ==> index.value == Fold(ParseBinary(gray).value)
    ensures |gray| == CHROMOSOME_LENGTH ==> index.Some? && index.value < Pow2(CHROMOSOME_LENGTH)
  {
    var parsed := ParseBinary(gray);
    if parsed.None? {
      if |gray| == CHROMOSOME_LENGTH {
        TwentyBitsParse(gray);
      }
      return None;
    }
    var binary := parsed.value;
    var result := binary;
    var shift := 1;
    while shift < CHROMOSOME_LENGTH
      invariant shift == 1 || shift == 2 || shift == 4 || shift == 8 || shift == 16 || shift == 32
      invariant result == FoldBelow(binary, shift)
      decreases CHROMOSOME_LENGTH - shift
    {
      result := BitXor(result, ShiftRight(binary, shift));
      shift := shift * 2;
    }
    index := Some(result);
    if |gray| == CHROMOSOME_LENGTH {
      BinaryValueBound(gray);
      FoldBound(binary, 32, CHROMOSOME_LENGTH);
    }
  }

  /** A 20-character bit string always parses: its value is below 2^20. */
  lemma TwentyBitsParse(gray: seq<char>)
    requires IsBitString(gray) && |gray| == CHROMOSOME_LENGTH
    ensures ParseBinary(gray).Some? && ParseBinary(gray).value < Pow2(CHROMOSOME_LENGTH)
  {
    BinaryValueBound(gray);
    GeneticAlgorithm.PowMonotone(CHROMOSOME_LENGTH, 31);
    GeneticAlgorithm.PowOf31();
  }

  // ------------------------------- against the prefix-XOR decoder

  /** Below 16 the shifts by 4, 8 and 16 vanish: the fold is g ^ (g >> 1) ^ (g >> 2). */
  lemma FoldBelowSixteen(g: nat)
    requires g < 16
    ensures Fold(g) == BitXor(BitXor(g, g / 2), g / 4)
  {
    FoldIsFiveShifts(g);
    var x := BitXor(BitXor(g, ShiftRight(g, 1)), ShiftRight(g, 2));
    assert Pow2(4) == 16;
    assert ShiftRight(g, 4) == 0;
    GeneticAlgorithm.PowMonotone(4, 8);
    assert ShiftRight(g, 8) == 0;
    GeneticAlgorithm.PowMonotone(4, 16);
    assert ShiftRight(g, 16) == 0;
    assert BitXor(x, 0) == x;
    assert Fold(g) == x;
    assert ShiftRight(g, 1) == g / 2;
    assert ShiftRight(g, 2) == ShiftRight(g / 2, 1) == g / 2 / 2 == g / 4;
  }

  /** The fold on the eight values below 8. */
  lemma FoldOfSmallValues()
    ensures Fold(0) == 0 && Fold(1) == 1 && Fold(2) == 3 && Fold(3) == 2
    ensures Fold(4) == 7 && Fold(5) == 6 && Fold(6) == 4 && Fold(7) == 5
  {
    FoldBelowSixteen(0);
    FoldBelowSixteen(1);
    FoldBelowSixteen(2);
    FoldBelowSixteen(3);
    FoldBelowSixteen(4);
    FoldBelowSixteen(5);
    FoldBelowSixteen(6);
    FoldBelowSixteen(7);
  }

  lemma BinaryValueOfThree(s: seq<char>)
    requires |s| == 3
    ensures BinaryValue(s) == 4 * BitValue(s[0]) + 2 * BitValue(s[1]) + BitValue(s[2])
  {
    assert s[..2][..1] == [s[0]];
    assert s[..2][..1][..0] == [];
    assert BinaryValue(s[..2][..1]) == BitValue(s[0]);
    assert BinaryValue(s[..2]) == 2 * BitValue(s[0]) + BitValue(s[1]);
  }

  /** Leading zeros leave the XOR of all bits alone. */
  lemma {:induction false} ParityLeadingZeros(n: nat, t: seq<char>)
    requires IsBitString(t)
    ensures GeneticAlgorithm.Parity(Zeros(n) + t) == GeneticAlgorithm.Parity(t)
  {
    if t == [] {
      assert Zeros(n) + t == Zeros(n);
      GeneticAlgorithm.ParityOfZeros(n);
    } else {
      assert (Zeros(n) + t)[..|Zeros(n) + t| - 1] == Zeros(n) + t[..|t| - 1];
      ParityLeadingZeros(n, t[..|t| - 1]);
    }
  }

  /** Leading zeros decode to leading zeros, so they leave the prefix-XOR index alone. */
  lemma GrayIndexLeadingZeros(n: nat, t: seq<char>)
    requires IsBitString(t)
    ensures GeneticAlgorithm.GrayIndex(Zeros(n) + t) == GeneticAlgorithm.GrayIndex(t)
  {
    var g := Zeros(n) + t;
    var b := GeneticAlgorithm.PrefixParity(g);
    forall i | 0 <= i < |g| ensures b[i] == (Zeros(n) + GeneticAlgorithm.PrefixParity(t))[i] {
      if i < n {
        assert g[..i + 1] == Zeros(i + 1);
        GeneticAlgorithm.ParityOfZeros(i + 1);
      } else {
        assert g[..i + 1] == Zeros(n) + t[..i - n + 1];
        ParityLeadingZeros(n, t[..i - n + 1]);
      }
    }
    assert b == Zeros(n) + GeneticAlgorithm.PrefixParity(t);
    BinaryValueLeadingZeros(n, GeneticAlgorithm.PrefixParity(t));
  }

  /** The prefix-XOR index of three bits a, b, c: the bits a, a ^ b, a ^ b ^ c read in binary. */
  lemma GrayIndexOfThree(t: seq<char>)
    requires IsBitString(t) && |t| == 3
    ensures GeneticAlgorithm.GrayIndex(t) ==
      4 * BitValue(t[0]) + 2 * BitValue(Xor(t[0], t[1])) + BitValue(Xor(Xor(t[0], t[1]), t[2]))
  {
    var b := GeneticAlgorithm.PrefixParity(t);
    assert t[..0] == [];
    GeneticAlgorithm.ParityStep(t, 0);
    GeneticAlgorithm.ParityStep(t, 1);
    GeneticAlgorithm.ParityStep(t, 2);
    assert b[0] == t[0];
    assert b[1] == Xor(t[0], t[1]);
    assert b[2] == Xor(b[1], t[2]);
    BinaryValueOfThree(b);
  }

  lemma FoldAgreesOnThreeBits(t: seq<char>)
    requires IsBitString(t) && |t| == 3
    ensures Fold(BinaryValue(t)) == GeneticAlgorithm.GrayIndex(t)
  {
    BinaryValueOfThree(t);
    GrayIndexOfThree(t);
    var v := BinaryValue(t);
    var w := GeneticAlgorithm.GrayIndex(t);
    FoldOfSmallValues();
    if t[0] == '0' {
      if t[1] == '0' {
        assert w == v;
      } else {
        if t[2] == '0' { assert v == 2 && w == 3; } else { assert v == 3 && w == 2; }
      }
    } else {
      if t[1] == '0' {
        if t[2] == '0' { assert v == 4 && w == 7; } else { assert v == 5 && w == 6; }
      } else {
        if t[2] == '0' { assert v == 6 && w == 4; } else { assert v == 7 && w == 5; }
      }
    }
  }

  /**
   * Below 8 the fold and grayToBinary's prefix-XOR decoding agree: a
   * 20-bit chromosome of value below 8 is 17 zeros and three bits.
   */
  lemma FoldAgreesBelowEight(gray: seq<char>)
    requires IsBitString(gray) && |gray| == CHROMOSOME_LENGTH && BinaryValue(gray) < 8
    ensures Fold(BinaryValue(gray)) == GeneticAlgorithm.GrayIndex(gray)
  {
    var p, t := gray[..17], gray[17..];
    assert gray == p + t;
    assert Pow2(|t|) == 8;
    HighPartZero(p, t);
    ZeroValueIsZeros(p);
    GrayIndexLeadingZeros(17, t);
    FoldAgreesOnThreeBits(t);
  }

  /** A value below 2^|t| read from p + t has nothing but zeros in p. */
  lemma HighPartZero(p: seq<char>, t: seq<char>)
    requires BinaryValue(p + t) < Pow2(|t|)
    ensures BinaryValue(p) == 0 && BinaryValue(p + t) == BinaryValue(t)
  {
    BinaryValueConcat(p, t);
    var v, q := BinaryValue(p), Pow2(|t|);
    if v > 0 {
      ProductAtLeast(v, q);
    }
  }

  lemma {:induction false} ProductAtLeast(v: nat, q: nat)
    requires v >= 1
    ensures v * q >= q
  {
    if v > 1 {
      ProductAtLeast(v - 1, q);
      assert v * q == (v - 1) * q + q;
    }
  }

  /**
   * The fold is not the inverse of Gray encoding: binary 15 encodes to the
   * Gray string of value 8, which the fold decodes to 14, while the
   * prefix-XOR decoder gives back 15.
   */
  lemma FoldBreaksRoundTrip()
    ensures var b := Zeros(16) + ['1', '1', '1', '1'];
      var g := GeneticAlgorithm.BinaryToGray(b);
      && g == Zeros(16) + ['1', '0', '0', '0']
      && ParseBinary(g) == Some(8)
      && Fold(8) == 14
      && BinaryValue(b) == 15
      && GeneticAlgorithm.GrayIndex(g) == 15
  {
    var b := Zeros(16) + ['1', '1', '1', '1'];
    GrayOfFifteen();
    ValueOfEight();
    ValueOfFifteen();
    FoldOfEight(8);
    GeneticAlgorithm.GrayEncodeThenDecode(b);
  }

  lemma GrayOfFifteen()
    ensures GeneticAlgorithm.BinaryToGray(Zeros(16) + ['1', '1', '1', '1']) == Zeros(16) + ['1', '0', '0', '0']
  {
    var b := Zeros(16) + ['1', '1', '1', '1'];
    var g := GeneticAlgorithm.BinaryToGray(b);
    forall i | 0 <= i < 20 ensures g[i] == (Zeros(16) + ['1', '0', '0', '0'])[i] {
      assert g[i] == GeneticAlgorithm.GrayBit(b, i);
    }
  }

  lemma ValueOfEight()
    ensures BinaryValue(Zeros(16) + ['1', '0', '0', '0']) == 8
  {
    assert ['1', '0', '0', '0'] == ['1'] + Zeros(3);
    assert ['1'][..0] == [];
    BinaryValueConcat(['1'], Zeros(3));
    BinaryValueOfZeros(3);
    BinaryValueLeadingZeros(16, ['1', '0', '0', '0']);
  }

  lemma ValueOfFifteen()
    ensures BinaryValue(Zeros(16) + ['1', '1', '1', '1']) == 15
  {
    assert ['1', '1', '1', '1'] == Repeat('1', 4);
    BinaryValueOfOnes(4);
    BinaryValueLeadingZeros(16, ['1', '1', '1', '1']);
  }

  /** 8 ^ 4 ^ 2 == 14. */
  lemma FoldOfEight(g: nat)
    requires g == 8
    ensures Fold(g) == 14
  {
    FoldBelowSixteen(g);
    assert g / 2 == 4 && g / 4 == 2;
    assert BitXor(1, 0) == 1;
    assert BitXor(2, 1) == 2 * BitXor(1, 0) + 1 == 3;
    assert BitXor(4, 2) == 2 * BitXor(2, 1) == 6;
    assert BitXor(8, 4) == 2 * BitXor(4, 2) == 12;
    assert BitXor(3, 0) == 3;
    assert BitXor(6, 1) == 2 * BitXor(3, 0) + 1 == 7;
    assert BitXor(12, 2) == 2 * BitXor(6, 1) == 14;
  }

  /**
   * The evidently intended decoder, grayToBinary's prefix XOR read as an
   * int (None where parseInt would throw).
   */
  function DecodeGrayCorrected(gray: seq<char>): (index: Option<nat>)
    requires IsBitString(gray)
    ensures |gray| == CHROMOSOME_LENGTH ==>
      index == Some(GeneticAlgorithm.GrayIndex(gray)) && index.value < Pow2(CHROMOSOME_LENGTH)
  {
    var b := GeneticAlgorithm.PrefixParity(gray);
    if |gray| == CHROMOSOME_LENGTH then TwentyBitsParse(b); ParseBinary(b)
    else ParseBinary(b)
  }

  /** The corrected decoder inverts Gray encoding on every 20-bit chromosome. */
  lemma CorrectedDecodingRoundTrip(b: seq<char>)
    requires IsBitString(b) && |b| == CHROMOSOME_LENGTH
    ensures DecodeGrayCorrected(GeneticAlgorithm.BinaryToGray(b)) == Some(BinaryValue(b))
  {
    GeneticAlgorithm.GrayEncodeThenDecode(b);
  }

  // ---------------------------------------------------------- operators

  /** A 20-character bit string, as initializePopulation makes them. */
  predicate Good(chromosome: Chromosome)
  {
    |chromosome| == CHROMOSOME_LENGTH && IsBitString(chromosome)
  }

  predicate WellFormed(population: seq<Chromosome>)
  {
    forall x :: x in population ==> Good(x)
  }

  /**
   * crossover: the cut is `nextInt(CHROMOSOME_LENGTH)`, so 0, a swap of
   * the parents, is possible.
   */
  function Crossover(parent1: Chromosome, parent2: Chromosome, point: int): (children: (Chromosome, Chromosome))
    requires 0 <= point < CHROMOSOME_LENGTH && point <= |parent1| && point <= |parent2|
    ensures |children.0| == |parent2| && |children.1| == |parent1|
    ensures point == 0 ==> children == (parent2, parent1)
    ensures IsBitString(parent1) && IsBitString(parent2) ==> IsBitString(children.0) && IsBitString(children.1)
  {
    assert parent1[..0] + parent2[0..] == parent2 && parent2[..0] + parent1[0..] == parent1;
    Splice(parent1, parent2, point)
  }

  /** Position by position the children of a crossover hold the parents' two bits. */
  lemma CrossoverExchanges(parent1: Chromosome, parent2: Chromosome, point: int)
    requires 0 <= point < CHROMOSOME_LENGTH && point <= |parent1| == |parent2|
    ensures var children := Crossover(parent1, parent2, point);
      forall i :: 0 <= i < |parent1| ==> multiset{children.0[i], children.1[i]} == multiset{parent1[i], parent2[i]}
  {
    SpliceExchanges(parent1, parent2, point);
  }

  /** The chromosome with the character at index flipped, and every other one kept. */
  function Flipped(chromosome: Chromosome, index: nat): (mutated: Chromosome)
    requires index < |chromosome|
    ensures |mutated| == |chromosome| && mutated[index] != chromosome[index]
    ensures Hamming(chromosome, mutated) == 1
    ensures IsBitString(chromosome) ==> IsBitString(mutated)
  {
    HammingUpdate(chromosome, index, Flip(chromosome[index]));
    chromosome[index := Flip(chromosome[index])]
  }

  /** Flipping the same bit twice gives the bit string back. */
  lemma FlipTwice(chromosome: Chromosome, index: nat)
    requires index < |chromosome| && IsBitString(chromosome)
    ensures Flipped(Flipped(chromosome, index), index) == chromosome
  {
    assert Flipped(Flipped(chromosome, index), index)[index] == chromosome[index];
  }

  /** mutate: a char-array copy with the character at the drawn index flipped, without a gate. */
  method Mutate(chromosome: Chromosome, index: int) returns (mutated: Chromosome)
    requires 0 <= index < CHROMOSOME_LENGTH && index < |chromosome|
    ensures mutated == Flipped(chromosome, index)
  {
    var chars := new char[|chromosome|](j requires 0 <= j < |chromosome| => chromosome[j]);
    chars[index] := if chars[index] == '0' then '1' else '0';
    mutated := chars[..];
  }

  // ------------------------------------------------------------ evolve

  /** The draws of one parent pair: the crossover coin and the cut. */
  datatype PairDraw = PairDraw(coin: real, point: int)

  /** The draws of one slot of the mutation pass: the gate and the flipped index. */
  datatype MutationDraw = MutationDraw(gate: real, index: int)

  predicate PairDrawsValid(draws: seq<PairDraw>)
  {
    forall i :: 0 <= i < |draws| ==> 0 <= draws[i].point < CHROMOSOME_LENGTH
  }

  predicate MutationDrawsValid(draws: seq<MutationDraw>)
  {
    forall i :: 0 <= i < |draws| ==> 0 <= draws[i].index < CHROMOSOME_LENGTH
  }

  /** One pair: the crossover children when the coin is below the rate, else the parents themselves. */
  function Children(parent1: Chromosome, parent2: Chromosome, d: PairDraw): (children: (Chromosome, Chromosome))
    requires 0 <= d.point < CHROMOSOME_LENGTH && Good(parent1) && Good(parent2)
    ensures d.coin >= CROSSOVER_RATE ==> children == (parent1, parent2)
    ensures Good(children.0) && Good(children.1)
  {
    if d.coin < CROSSOVER_RATE then Crossover(parent1, parent2, d.point) else (parent1, parent2)
  }

  /** Bred or not, a pair's children hold, position by position, the parents' two bits. */
  lemma ChildrenExchange(parent1: Chromosome, parent2: Chromosome, d: PairDraw)
    requires 0 <= d.point < CHROMOSOME_LENGTH && Good(parent1) && Good(parent2)
    ensures var children := Children(parent1, parent2, d);
      forall i :: 0 <= i < CHROMOSOME_LENGTH ==>
        multiset{children.0[i], children.1[i]} == multiset{parent1[i], parent2[i]}
  {
    if d.coin < CROSSOVER_RATE {
      CrossoverExchanges(parent1, parent2, d.point);
    }
  }

  /** The first loop of evolve: pairs (i, i + 1) for i < pairs, two members each, in order. */
  function Pairing(parents: seq<Chromosome>, pairs: nat, draws: seq<PairDraw>): (next: seq<Chromosome>)
    requires pairs <= |draws| && PairDrawsValid(draws) && WellFormed(parents)
    requires pairs == 0 || pairs < |parents|
    ensures |next| == 2 * pairs && WellFormed(next)
  {
    if pairs == 0 then []
    else
      var children := Children(parents[pairs - 1], parents[pairs], draws[pairs - 1]);
      Pairing(parents, pairs - 1, draws) + [children.0, children.1]
  }

  /** Pair i breeds parents[i] with parents[i + 1] and fills slots 2i and 2i + 1. */
  lemma {:induction false} PairingUsesNeighbours(parents: seq<Chromosome>, pairs: nat, draws: seq<PairDraw>, i: nat)
    requires pairs <= |draws| && PairDrawsValid(draws) && WellFormed(parents)
    requires pairs < |parents| && i < pairs
    ensures var children := Children(parents[i], parents[i + 1], draws[i]);
      Pairing(parents, pairs, draws)[2 * i] == children.0 &&
      Pairing(parents, pairs, draws)[2 * i + 1] == children.1
  {
    var prev := Pairing(parents, pairs - 1, draws);
    var last := Children(parents[pairs - 1], parents[pairs], draws[pairs - 1]);
    var next := Pairing(parents, pairs, draws);
    assert next == prev + [last.0, last.1];
    if i < pairs - 1 {
      PairingUsesNeighbours(parents, pairs - 1, draws, i);
    }
    AppendedPairAt(prev, last.0, last.1, 2 * i);
    AppendedPairAt(prev, last.0, last.1, 2 * i + 1);
  }

  lemma AppendedPairAt<T>(prev: seq<T>, a: T, b: T, k: nat)
    requires k < |prev| + 2
    ensures (prev + [a, b])[k] == if k < |prev| then prev[k] else if k == |prev| then a else b
  {
  }

  /** Only parents[0..pairs] take part: the members after index `pairs` never breed. */
  lemma {:induction false} PairingIgnoresTheRest(parents: seq<Chromosome>, pairs: nat, draws: seq<PairDraw>)
    requires pairs <= |draws| && PairDrawsValid(draws) && WellFormed(parents) && pairs < |parents|
    ensures WellFormed(parents[..pairs + 1])
    ensures Pairing(parents, pairs, draws) == Pairing(parents[..pairs + 1], pairs, draws)
  {
    if pairs > 0 {
      PairingIgnoresTheRest(parents, pairs - 1, draws);
      assert parents[..pairs + 1][..pairs] == parents[..pairs];
      PairingPrefix(parents[..pairs + 1], pairs - 1, draws);
    }
  }

  /** Cutting the parents after index pairs + 1 leaves the pairing alone. */
  lemma {:induction false} PairingPrefix(parents: seq<Chromosome>, pairs: nat, draws: seq<PairDraw>)
    requires pairs <= |draws| && PairDrawsValid(draws) && WellFormed(parents) && pairs + 1 < |parents|
    ensures WellFormed(parents[..pairs + 1])
    ensures Pairing(parents, pairs, draws) == Pairing(parents[..pairs + 1], pairs, draws)
  {
    if pairs > 0 {
      PairingPrefix(parents, pairs - 1, draws);
      PairingPrefix(parents[..pairs + 1], pairs - 1, draws);
      assert parents[..pairs + 1][..pairs] == parents[..pairs];
    }
  }

  /** The first loop of evolve over the sorted list. */
  method BreedPairs(population: array<Chromosome>, pairDraws: seq<PairDraw>) returns (newPopulation: seq<Chromosome>)
    requires population.Length > POPULATION_SIZE / 2 && WellFormed(population[..])
    requires |pairDraws| >= POPULATION_SIZE / 2 && PairDrawsValid(pairDraws)
    ensures newPopulation == Pairing(population[..], POPULATION_SIZE / 2, pairDraws)
  {
    newPopulation := [];
    for i := 0 to POPULATION_SIZE / 2
      invariant newPopulation == Pairing(population[..], i, pairDraws)
    {
      var parent1 := population[i];
      var parent2 := population[i + 1];
      assert parent1 == population[..][i] && parent2 == population[..][i + 1];
      assert parent1 in population[..] && parent2 in population[..];
      if pairDraws[i].coin < CROSSOVER_RATE {
        var children := Crossover(parent1, parent2, pairDraws[i].point);
        newPopulation := newPopulation + [children.0, children.1];
      } else {
        newPopulation := newPopulation + [parent1, parent2];
      }
    }
  }

  /** A mutation-pass slot: mutate of the chromosome when the gate fires, else the chromosome. */
  function Mutated(chromosome: Chromosome, d: MutationDraw): (mutated: Chromosome)
    requires 0 <= d.index < CHROMOSOME_LENGTH && Good(chromosome)
    ensures Good(mutated) && |mutated| == |chromosome|
  {
    if d.gate < MUTATION_RATE then Flipped(chromosome, d.index) else chromosome
  }

  /** The second loop of evolve: slot i is replaced by mutate of itself when its gate fires. */
  function MutationPass(population: seq<Chromosome>, draws: seq<MutationDraw>): (next: seq<Chromosome>)
    requires |draws| >= |population| && MutationDrawsValid(draws) && WellFormed(population)
    ensures |next| == |population| && WellFormed(next)
    ensures forall i :: 0 <= i < |population| ==>
      |next[i]| == |population[i]| &&
      (draws[i].gate >= MUTATION_RATE ==> next[i] == population[i]) &&
      (draws[i].gate < MUTATION_RATE ==> Hamming(population[i], next[i]) == 1)
  {
    assert forall i :: 0 <= i < |population| ==> population[i] in population;
    seq(|population|, i requires 0 <= i < |population| => Mutated(population[i], draws[i]))
  }

  method MutationLoop(population: seq<Chromosome>, draws: seq<MutationDraw>) returns (newPopulation: seq<Chromosome>)
    requires |draws| >= |population| && MutationDrawsValid(draws) && WellFormed(population)
    ensures newPopulation == MutationPass(population, draws)
  {
    newPopulation := population;
    assert forall k :: 0 <= k < |population| ==> population[k] in population;
    for i := 0 to |population|
      invariant |newPopulation| == |population|
      invariant forall k :: 0 <= k < i ==> newPopulation[k] == Mutated(population[k], draws[k])
      invariant forall k :: i <= k < |population| ==> newPopulation[k] == population[k]
    {
      assert population[i] in population;
      if draws[i].gate < MUTATION_RATE {
        var mutated := Mutate(newPopulation[i], draws[i].index);
        newPopulation := newPopulation[i := mutated];
      }
    }
  }

  /** The draws one generation consumes. */
  datatype GenerationDraws = GenerationDraws(pairs: seq<PairDraw>, mutations: seq<MutationDraw>)

  predicate ValidGeneration(d: GenerationDraws)
  {
    |d.pairs| >= POPULATION_SIZE / 2 && PairDrawsValid(d.pairs) &&
    |d.mutations| >= 2 * (POPULATION_SIZE / 2) && MutationDrawsValid(d.mutations)
  }

  /** evolve as a function of the unsorted population. */
  function NextPopulation(population: seq<Chromosome>, score: Chromosome -> int, d: GenerationDraws): (next: seq<Chromosome>)
    requires |population| > POPULATION_SIZE / 2 && WellFormed(population) && ValidGeneration(d)
    ensures |next| == POPULATION_SIZE && WellFormed(next)
  {
    SortByKeyMembers(population, score);
    SortByKeyPermutation(population, score);
    MutationPass(Pairing(SortByKey(population, score), POPULATION_SIZE / 2, d.pairs), d.mutations)
  }

  /**
   * Only the 26 lowest-scoring members act as parents: the next population
   * is bred from the first 26 of the sorted list, none of which scores
   * above a member left out.
   */
  lemma ParentsAreTheBest(population: seq<Chromosome>, score: Chromosome -> int, d: GenerationDraws)
    requires |population| > POPULATION_SIZE / 2 && WellFormed(population) && ValidGeneration(d)
    ensures var sorted := SortByKey(population, score);
      && |sorted| == |population|
      && WellFormed(sorted[..POPULATION_SIZE / 2 + 1])
      && NextPopulation(population, score, d) ==
         MutationPass(Pairing(sorted[..POPULATION_SIZE / 2 + 1], POPULATION_SIZE / 2, d.pairs), d.mutations)
      && forall i, j :: 0 <= i <= POPULATION_SIZE / 2 < j < |sorted| ==> score(sorted[i]) <= score(sorted[j])
  {
    SortByKeyMembers(population, score);
    SortByKeyPermutation(population, score);
    var sorted := SortByKey(population, score);
    PairingIgnoresTheRest(sorted, POPULATION_SIZE / 2, d.pairs);
    SortedPrefixIsLowest(population, score, POPULATION_SIZE / 2 + 1);
  }

  /**
   * evolve: sort the caller's list in place, ascending by score, breed
   * pairs (i, i + 1) for i < 25, then run the mutation pass over the 50
   * offspring.
   */
  method Evolve(population: array<Chromosome>, score: Chromosome -> int, d: GenerationDraws)
    returns (newPopulation: seq<Chromosome>)
    requires population.Length > POPULATION_SIZE / 2 && WellFormed(population[..]) && ValidGeneration(d)
    modifies population
    ensures population[..] == SortByKey(old(population[..]), score)
    ensures newPopulation == NextPopulation(old(population[..]), score, d)
  {
    SortByKeyMembers(population[..], score);
    SortInPlace(population, score);
    SortByKeyPermutation(old(population[..]), score);
    assert WellFormed(population[..]);
    var paired := BreedPairs(population, d.pairs);
    newPopulation := MutationLoop(paired, d.mutations);
  }

  // -------------------------------------------------------------- main

  /** Draws for every generation, each valid. */
  predicate ValidDraws(draws: seq<GenerationDraws>)
  {
    forall g :: 0 <= g < |draws| ==> ValidGeneration(draws[g])
  }

  lemma ValidDrawsSuffix(draws: seq<GenerationDraws>, g: nat)
    requires ValidDraws(draws) && g <= |draws|
    ensures ValidDraws(draws[g..])
  {
    forall h | 0 <= h < |draws[g..]| ensures ValidGeneration(draws[g..][h]) {
      assert draws[g..][h] == draws[g + h];
    }
  }

  /** The population after one generation per entry of draws. */
  function Minimize(population: seq<Chromosome>, score: Chromosome -> int, draws: seq<GenerationDraws>): (final: seq<Chromosome>)
    requires |population| > POPULATION_SIZE / 2 && WellFormed(population)
    requires ValidDraws(draws)
    ensures draws != [] ==> |final| == POPULATION_SIZE
    ensures WellFormed(final)
    decreases |draws|
  {
    if draws == [] then population
    else
      ValidDrawsSuffix(draws, 1);
      Minimize(NextPopulation(population, score, draws[0]), score, draws[1..])
  }

  /**
   * The state of main's loop before generation g: what is left of the run
   * from here ends where the whole run ends.
   */
  ghost predicate Minimizing(initial: seq<Chromosome>, score: Chromosome -> int, draws: seq<GenerationDraws>,
                             g: nat, population: seq<Chromosome>)
  {
    |initial| > POPULATION_SIZE / 2 && WellFormed(initial) && ValidDraws(draws) && g <= |draws| &&
    |population| == POPULATION_SIZE && WellFormed(population) && ValidDraws(draws[g..]) &&
    Minimize(initial, score, draws) == Minimize(population, score, draws[g..])
  }

  /** One pass of main's loop: evolve on a fresh list holding the population. */
  method MinimizeStep(initial: seq<Chromosome>, score: Chromosome -> int, draws: seq<GenerationDraws>,
                      g: nat, population: seq<Chromosome>)
    returns (next: seq<Chromosome>)
    requires Minimizing(initial, score, draws, g, population) && g < |draws|
    ensures Minimizing(initial, score, draws, g + 1, next)
  {
    var list := new Chromosome[|population|](i requires 0 <= i < |population| => population[i]);
    assert list[..] == population;
    assert draws[g..][0] == draws[g];
    next := Evolve(list, score, draws[g]);
    assert draws[g..][1..] == draws[g + 1..];
    ValidDrawsSuffix(draws, g + 1);
  }

  /**
   * main without the printing: MAX_GENERATIONS calls of evolve, then
   * getBestChromosome (the first chromosome of least score, the rule of
   * `Collections.min`) and the integer part of decodeGray.
   */
  method Run(initial: seq<Chromosome>, score: Chromosome -> int, draws: seq<GenerationDraws>)
    returns (best: Chromosome, index: Option<nat>)
    requires |initial| == POPULATION_SIZE && WellFormed(initial)
    requires |draws| == MAX_GENERATIONS && ValidDraws(draws)
    ensures var final := Minimize(initial, score, draws);
      && best in final
      && (forall x :: x in final ==> score(best) <= score(x))
      && index == Some(Fold(BinaryValue(best)))
      && index.value < Pow2(CHROMOSOME_LENGTH)
  {
    var population := initial;
    assert draws[0..] == draws;
    for generation := 0 to MAX_GENERATIONS
      invariant Minimizing(initial, score, draws, generation, population)
    {
      population := MinimizeStep(initial, score, draws, generation, population);
    }
    assert draws[MAX_GENERATIONS..] == [];
    best := GeneticAlgorithm.FindBest(population, score);
    index := DecodeGray(best);
    TwentyBitsParse(best);
  }
}
