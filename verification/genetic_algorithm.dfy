/**
 * The continuous-optimisation program and its binary-sequence search
 * (GeneticAlgorithm.java): 20-bit Gray-coded chromosomes, roulette-wheel
 * selection, overlapping parent pairs, one-point crossover and per-bit
 * mutation; and a 35-bit sequence search that ranks by autocorrelation.
 * Every random draw is a parameter.
 */
module GeneticAlgorithm {
  import opened Bits
  import opened Sidelobe
  import opened Ranking
  import opened Roulette
  import opened OnePoint

  const POPULATION_SIZE := 50
  const CHROMOSOME_LENGTH := 20
  const CROSSOVER_RATE: real := 0.85
  const MUTATION_RATE: real := 0.1
  const MAX_GENERATIONS := 100

  // The constants local to findBinarySequence.
  const SEQUENCE_LENGTH := 35
  const SEQUENCE_POPULATION := 70
  const SEQUENCE_K := 3
  const SEQUENCE_CROSSOVER_RATE: real := 0.8

  // ------------------------------------------------------------ Gray code

  /** XOR of all the bits of s. */
  function Parity(s: seq<char>): (p: char)
    requires IsBitString(s)
    ensures IsBit(p)
  {
    if s == [] then '0' else Xor(Parity(s[..|s| - 1]), s[|s| - 1])
  }

  /** Bit i is the XOR of gray bits 0..i: the reflected-binary decoding. */
  function PrefixParity(g: seq<char>): (b: seq<char>)
    requires IsBitString(g)
    ensures |b| == |g| && IsBitString(b)
  {
    seq(|g|, i requires 0 <= i < |g| => Parity(g[..i + 1]))
  }

  /** Reflected-binary encoding: keep the first bit, then XOR neighbours. */
  function BinaryToGray(b: seq<char>): (g: seq<char>)
    requires IsBitString(b)
    ensures |g| == |b| && IsBitString(g)
  {
    seq(|b|, i requires 0 <= i < |b| => GrayBit(b, i))
  }

  function GrayBit(b: seq<char>, i: nat): (c: char)
    requires IsBitString(b) && i < |b|
    ensures IsBit(c)
  {
    if i == 0 then b[0] else Xor(b[i], b[i - 1])
  }

  lemma ParityStep(s: seq<char>, i: nat)
    requires IsBitString(s) && i < |s|
    ensures Parity(s[..i + 1]) == Xor(Parity(s[..i]), s[i])
  {
    assert s[..i + 1][..i] == s[..i];
  }

  /** grayToBinary: append the first gray bit, then each gray bit XOR the previous output bit. */
  method GrayToBinary(gray: seq<char>) returns (binary: seq<char>)
    requires |gray| > 0 && IsBitString(gray)
    ensures |binary| == |gray| && binary[0] == gray[0]
    ensures binary == PrefixParity(gray)
  {
    binary := [gray[0]];
    ParityStep(gray, 0);
    for i := 1 to |gray|
      invariant |binary| == i
      invariant forall k :: 0 <= k < i ==> binary[k] == Parity(gray[..k + 1])
    {
      ParityStep(gray, i);
      binary := binary + [Xor(gray[i], binary[i - 1])];
    }
  }

  /** Encoding the decoded string gives back the Gray string. */
  lemma GrayDecodeThenEncode(g: seq<char>)
    requires IsBitString(g)
    ensures BinaryToGray(PrefixParity(g)) == g
  {
    var b := PrefixParity(g);
    forall i | 0 <= i < |g| ensures BinaryToGray(b)[i] == g[i] {
      ParityStep(g, i);
      if i > 0 {
        assert b[i - 1] == Parity(g[..i]);
      }
    }
  }

  lemma {:induction false} ParityOfEncoding(b: seq<char>, i: nat)
    requires IsBitString(b) && i < |b|
    ensures Parity(BinaryToGray(b)[..i + 1]) == b[i]
  {
    var g := BinaryToGray(b);
    ParityStep(g, i);
    assert g[i] == GrayBit(b, i);
    if i == 0 {
      assert g[..0] == [];
    } else {
      ParityOfEncoding(b, i - 1);
    }
  }

  /** Decoding the encoded string gives back the binary string: decoding is a bijection on n-bit strings. */
  lemma GrayEncodeThenDecode(b: seq<char>)
    requires IsBitString(b)
    ensures PrefixParity(BinaryToGray(b)) == b
  {
    forall i | 0 <= i < |b| ensures PrefixParity(BinaryToGray(b))[i] == b[i] {
      ParityOfEncoding(b, i);
    }
  }

  /** The integer decodeGrayToDecimal scales: the decoded string read as unsigned binary. */
  function GrayIndex(g: seq<char>): nat
    requires IsBitString(g)
  {
    BinaryValue(PrefixParity(g))
  }

  /**
   * Integer part of decodeGrayToDecimal: `Integer.parseInt(grayToBinary(g), 2)`.
   * On the program's 20-bit chromosomes it always parses, into [0, 2^20 - 1].
   */
  method DecodeGrayIndex(grayCode: seq<char>) returns (binary: Option<nat>)
    requires |grayCode| > 0 && IsBitString(grayCode)
    ensures binary == ParseBinary(PrefixParity(grayCode))
    ensures |grayCode| <= 31 ==> binary == Some(GrayIndex(grayCode))
    ensures |grayCode| == CHROMOSOME_LENGTH ==> binary.Some? && binary.value <= Pow2(CHROMOSOME_LENGTH) - 1
  {
    var text := GrayToBinary(grayCode);
    BinaryValueBound(text);
    if |grayCode| <= 31 {
      PowMonotone(|grayCode|, 31);
      PowOf31();
    }
    binary := ParseBinary(text);
  }

  lemma {:induction false} PowMonotone(m: nat, n: nat)
    requires m <= n
    ensures Pow2(m) <= Pow2(n)
    decreases n
  {
    if m < n {
      PowMonotone(m, n - 1);
    }
  }

  lemma PowOf31()
    ensures Pow2(31) == INT_MAX + 1
  {
    assert Pow2(10) == 1024;
    assert Pow2(20) == 1024 * 1024;
    assert Pow2(31) == 2048 * 1024 * 1024;
  }

  lemma {:induction false} ParityOfZeros(n: nat)
    ensures Parity(Zeros(n)) == '0'
  {
    if n > 0 {
      assert Zeros(n)[..n - 1] == Zeros(n - 1);
      ParityOfZeros(n - 1);
    }
  }

  lemma {:induction false} ParityOfOneThenZeros(n: nat)
    ensures Parity(['1'] + Zeros(n)) == '1'
  {
    if n > 0 {
      assert (['1'] + Zeros(n))[..n] == ['1'] + Zeros(n - 1);
      ParityOfOneThenZeros(n - 1);
    } else {
      assert (['1'] + Zeros(n))[..0] == [];
    }
  }

  lemma {:induction false} ParityOfOnes(n: nat)
    ensures Parity(Repeat('1', n)) == if n % 2 == 1 then '1' else '0'
  {
    if n > 0 {
      assert Repeat('1', n)[..n - 1] == Repeat('1', n - 1);
      ParityOfOnes(n - 1);
    }
  }

  /** The all-zero chromosome decodes to the bottom of the range, 0. */
  lemma GrayIndexOfZeros(n: nat)
    ensures GrayIndex(Zeros(n)) == 0
  {
    forall i | 0 <= i < n ensures PrefixParity(Zeros(n))[i] == '0' {
      assert Zeros(n)[..i + 1] == Zeros(i + 1);
      ParityOfZeros(i + 1);
    }
    assert PrefixParity(Zeros(n)) == Zeros(n);
    BinaryValueOfZeros(n);
  }

  /** '1' followed by zeros decodes to the top of the range, 2^n - 1. */
  lemma GrayIndexOfOneThenZeros(n: nat)
    ensures GrayIndex(['1'] + Zeros(n)) == Pow2(n + 1) - 1
  {
    var g := ['1'] + Zeros(n);
    forall i | 0 <= i < n + 1 ensures PrefixParity(g)[i] == '1' {
      assert g[..i + 1] == ['1'] + Zeros(i);
      ParityOfOneThenZeros(i);
    }
    assert PrefixParity(g) == Repeat('1', n + 1);
    BinaryValueOfOnes(n + 1);
  }

  /**
   * The all-ones chromosome of even length does not decode to the top of
   * the range: its decoding ends in '0', so the index is even.
   */
  lemma GrayIndexOfOnesIsNotTop(n: nat)
    requires n > 0 && n % 2 == 0
    ensures GrayIndex(Repeat('1', n)) != Pow2(n) - 1
    ensures GrayIndex(Repeat('1', n)) % 2 == 0
  {
    var g := Repeat('1', n);
    assert g[..n] == Repeat('1', n);
    ParityOfOnes(n);
    assert PrefixParity(g)[n - 1] == '0';
    BinaryValueParity(PrefixParity(g));
  }

  /** The three fixed points of the 20-bit decoding, as the program's chromosomes see them. */
  lemma GrayIndexExtremes()
    ensures GrayIndex(Zeros(CHROMOSOME_LENGTH)) == 0
    ensures GrayIndex(['1'] + Zeros(CHROMOSOME_LENGTH - 1)) == Pow2(CHROMOSOME_LENGTH) - 1
    ensures GrayIndex(Repeat('1', CHROMOSOME_LENGTH)) != Pow2(CHROMOSOME_LENGTH) - 1
  {
    GrayIndexOfZeros(CHROMOSOME_LENGTH);
    GrayIndexOfOneThenZeros(CHROMOSOME_LENGTH - 1);
    GrayIndexOfOnesIsNotTop(CHROMOSOME_LENGTH);
  }

  // ---------------------------------------------------------- operators

  /** crossover: the cut is `nextInt(CHROMOSOME_LENGTH)`, so 0 (a swap of the parents) is possible. */
  function Crossover(parent1: Chromosome, parent2: Chromosome, point: int): (offspring: (Chromosome, Chromosome))
    requires 0 <= point < CHROMOSOME_LENGTH && point <= |parent1| && point <= |parent2|
    ensures |offspring.0| == |parent2| && |offspring.1| == |parent1|
    ensures offspring.0[..point] == parent1[..point] && offspring.0[point..] == parent2[point..]
    ensures offspring.1[..point] == parent2[..point] && offspring.1[point..] == parent1[point..]
    ensures point == 0 ==> offspring == (parent2, parent1)
  {
    Splice(parent1, parent2, point)
  }

  /** A mutation draw flips its bit when it falls below MUTATION_RATE. */
  predicate Fires(draw: real) { draw < MUTATION_RATE }

  /** Bit j is flipped when draw j exists and fires; every other bit is kept. */
  function FlipMasked(c: Chromosome, draws: seq<real>): (m: Chromosome)
    ensures |m| == |c|
  {
    seq(|c|, j requires 0 <= j < |c| => if j < |draws| && Fires(draws[j]) then Flip(c[j]) else c[j])
  }

  /** Number of draws that fire. */
  function FiredCount(draws: seq<real>): nat
  {
    if draws == [] then 0 else FiredCount(draws[..|draws| - 1]) + (if Fires(draws[|draws| - 1]) then 1 else 0)
  }

  /**
   * mutate: a StringBuilder copy whose first CHROMOSOME_LENGTH characters
   * are each flipped when their draw fires.  Characters from position 20 on
   * are never visited, so on the 35-bit sequences they never mutate.
   */
  method Mutate(chromosome: Chromosome, draws: seq<real>) returns (mutated: Chromosome)
    requires |chromosome| >= CHROMOSOME_LENGTH && |draws| == CHROMOSOME_LENGTH
    ensures mutated == FlipMasked(chromosome, draws)
    ensures forall j :: CHROMOSOME_LENGTH <= j < |chromosome| ==> mutated[j] == chromosome[j]
    ensures (forall j :: 0 <= j < |draws| ==> !Fires(draws[j])) ==> mutated == chromosome
    ensures (forall j :: 0 <= j < |draws| ==> Fires(draws[j])) ==>
      forall j :: 0 <= j < CHROMOSOME_LENGTH ==> mutated[j] != chromosome[j]
  {
    var buffer := new char[|chromosome|](j requires 0 <= j < |chromosome| => chromosome[j]);
    for i := 0 to CHROMOSOME_LENGTH
      invariant buffer[..] == FlipMasked(chromosome, draws[..i])
    {
      if Fires(draws[i]) {
        buffer[i] := Flip(chromosome[i]);
      }
    }
    assert draws[..CHROMOSOME_LENGTH] == draws;
    mutated := buffer[..];
  }

  /** Mutation changes exactly as many bits as there are firing draws. */
  lemma {:induction false} MutationDistance(c: Chromosome, draws: seq<real>)
    requires |draws| <= |c|
    ensures Hamming(c, FlipMasked(c, draws)) == FiredCount(draws)
  {
    if c != [] {
      var n := |c|;
      var m := FlipMasked(c, draws);
      if |draws| == n {
        assert m[..n - 1] == FlipMasked(c[..n - 1], draws[..n - 1]);
        MutationDistance(c[..n - 1], draws[..n - 1]);
      } else {
        assert m[..n - 1] == FlipMasked(c[..n - 1], draws);
        MutationDistance(c[..n - 1], draws);
      }
    }
  }

  // ------------------------------------------------ pairing and evolution

  /** The draws one parent pair consumes: the crossover coin, the cut and two mutation masks. */
  datatype PairDraws = PairDraws(coin: real, point: int, mask1: seq<real>, mask2: seq<real>)

  predicate ValidPairDraws(d: PairDraws)
  {
    0 <= d.point < CHROMOSOME_LENGTH && |d.mask1| == CHROMOSOME_LENGTH && |d.mask2| == CHROMOSOME_LENGTH
  }

  predicate AllValid(draws: seq<PairDraws>)
  {
    forall i :: 0 <= i < |draws| ==> ValidPairDraws(draws[i])
  }

  predicate LongEnough(population: seq<Chromosome>)
  {
    forall x :: x in population ==> |x| >= CHROMOSOME_LENGTH
  }

  /**
   * One pair: with a coin below the crossover rate, the mutated children of
   * a crossover; otherwise the two parents, unmutated.
   */
  function Breed(parent1: Chromosome, parent2: Chromosome, d: PairDraws, crossoverRate: real): (children: (Chromosome, Chromosome))
    requires ValidPairDraws(d) && |parent1| >= CHROMOSOME_LENGTH && |parent2| >= CHROMOSOME_LENGTH
    ensures d.coin >= crossoverRate ==> children == (parent1, parent2)
    ensures |parent1| == |parent2| ==> |children.0| == |children.1| == |parent1|
  {
    if d.coin < crossoverRate then
      var offspring := Crossover(parent1, parent2, d.point);
      (FlipMasked(offspring.0, d.mask1), FlipMasked(offspring.1, d.mask2))
    else
      (parent1, parent2)
  }

  /**
   * From position CHROMOSOME_LENGTH on, a pair's children hold the parents'
   * two bits: the cut lies before it and mutation never reaches it.
   */
  lemma BreedKeepsTail(parent1: Chromosome, parent2: Chromosome, d: PairDraws, crossoverRate: real)
    requires ValidPairDraws(d) && |parent1| == |parent2| >= CHROMOSOME_LENGTH
    ensures var c := Breed(parent1, parent2, d, crossoverRate);
      forall j :: CHROMOSOME_LENGTH <= j < |parent1| ==>
        multiset{c.0[j], c.1[j]} == multiset{parent1[j], parent2[j]}
  {
    if d.coin < crossoverRate {
      SpliceExchanges(parent1, parent2, d.point);
    }
  }

  /** Pairs (i, i + 1) for i < pairs, each contributing two members in order. */
  function PairUp(parents: seq<Chromosome>, pairs: nat, draws: seq<PairDraws>, crossoverRate: real): (next: seq<Chromosome>)
    requires pairs <= |draws| && AllValid(draws) && LongEnough(parents)
    requires pairs == 0 || pairs < |parents|
    ensures |next| == 2 * pairs
  {
    if pairs == 0 then []
    else
      var children := Breed(parents[pairs - 1], parents[pairs], draws[pairs - 1], crossoverRate);
      PairUp(parents, pairs - 1, draws, crossoverRate) + [children.0, children.1]
  }

  /**
   * Pair i breeds parents[i] with parents[i + 1]: the pairs overlap, so
   * every parent but the first and the one at index `pairs` is used twice.
   */
  lemma {:induction false} PairUpUsesNeighbours(parents: seq<Chromosome>, pairs: nat, draws: seq<PairDraws>, crossoverRate: real, i: nat)
    requires pairs <= |draws| && AllValid(draws) && LongEnough(parents)
    requires pairs < |parents| && i < pairs
    ensures var children := Breed(parents[i], parents[i + 1], draws[i], crossoverRate);
      PairUp(parents, pairs, draws, crossoverRate)[2 * i] == children.0 &&
      PairUp(parents, pairs, draws, crossoverRate)[2 * i + 1] == children.1
  {
    var prev := PairUp(parents, pairs - 1, draws, crossoverRate);
    var last := Breed(parents[pairs - 1], parents[pairs], draws[pairs - 1], crossoverRate);
    var next := PairUp(parents, pairs, draws, crossoverRate);
    assert next == prev + [last.0, last.1];
    if i < pairs - 1 {
      PairUpUsesNeighbours(parents, pairs - 1, draws, crossoverRate, i);
      assert 2 * i + 1 < |prev|;
      assert next[2 * i] == prev[2 * i] && next[2 * i + 1] == prev[2 * i + 1];
    } else {
      assert 2 * i == |prev|;
    }
  }

  lemma AppendPairLengths(prev: seq<Chromosome>, a: Chromosome, b: Chromosome, len: nat)
    requires (forall x :: x in prev ==> |x| == len) && |a| == len && |b| == len
    ensures forall x :: x in prev + [a, b] ==> |x| == len
  {
  }

  /** Pairing equally long parents yields children of that same length. */
  lemma {:induction false} PairUpKeepsLength(parents: seq<Chromosome>, pairs: nat, draws: seq<PairDraws>, crossoverRate: real, len: nat)
    requires pairs <= |draws| && AllValid(draws) && len >= CHROMOSOME_LENGTH
    requires forall x :: x in parents ==> |x| == len
    requires pairs == 0 || pairs < |parents|
    ensures forall x :: x in PairUp(parents, pairs, draws, crossoverRate) ==> |x| == len
  {
    if pairs > 0 {
      PairUpKeepsLength(parents, pairs - 1, draws, crossoverRate, len);
      var parent1, parent2 := parents[pairs - 1], parents[pairs];
      assert parent1 in parents && parent2 in parents;
      var last := Breed(parent1, parent2, draws[pairs - 1], crossoverRate);
      assert |last.0| == |last.1| == len;
      var prev := PairUp(parents, pairs - 1, draws, crossoverRate);
      var next := PairUp(parents, pairs, draws, crossoverRate);
      assert next == prev + [last.0, last.1];
      AppendPairLengths(prev, last.0, last.1, len);
    }
  }

  function Weights(population: seq<Chromosome>, weight: Chromosome -> real): (w: seq<real>)
    ensures |w| == |population|
  {
    seq(|population|, i requires 0 <= i < |population| => weight(population[i]))
  }

  /** The members the spins pick, in draw order; a spin that stops nowhere adds nothing. */
  function Picks(population: seq<Chromosome>, w: seq<real>, total: real, draws: seq<real>): (selected: seq<Chromosome>)
    requires |w| == |population|
    ensures |selected| <= |draws|
    ensures forall x :: x in selected ==> x in population
  {
    if draws == [] then []
    else Picks(population, w, total, draws[..|draws| - 1]) + Pick(population, w, draws[|draws| - 1], total)
  }

  /** The member one spin picks, the draw scaled by the total: none when it stops nowhere. */
  function Pick(population: seq<Chromosome>, w: seq<real>, draw: real, total: real): (picked: seq<Chromosome>)
    requires |w| == |population|
    ensures |picked| <= 1 && forall x :: x in picked ==> x in population
  {
    match Spin(w, Scaled(draw, total))
    case Some(k) => [population[k]]
    case None => []
  }

  /**
   * With positive weights and draws in [0, 1), every spin stops somewhere,
   * so the selection is as long as the draw list.
   */
  lemma {:induction false} PicksFull(population: seq<Chromosome>, w: seq<real>, draws: seq<real>)
    requires |w| == |population| > 0 && forall i :: 0 <= i < |w| ==> w[i] > 0.0
    requires forall i :: 0 <= i < |draws| ==> 0.0 <= draws[i] < 1.0
    ensures |Picks(population, w, Total(w), draws)| == |draws|
  {
    if draws != [] {
      PicksFull(population, w, draws[..|draws| - 1]);
      PositiveWeightsAlwaysReach(w, draws[|draws| - 1]);
    }
  }

  /**
   * Without a fallback a spin can stop nowhere: a lone chromosome whose
   * weight 1 / (1 + f(x)) is negative (f dips below -1) is never picked.
   */
  lemma PicksCanFallShort()
    ensures var w := [-1.0];
      |Picks(["0"], w, Total(w), [0.5])| == 0
  {
    var w := [-1.0];
    assert Total(w) == -1.0;
    assert !Reaches(w, 0.5 * -1.0, 0);
    assert Spin(w, 0.5 * -1.0) == None;
    assert [0.5][..0] == [];
  }

  /** One more draw appends the member its spin stops at, if any. */
  lemma PicksStep(population: seq<Chromosome>, w: seq<real>, total: real, draws: seq<real>, i: nat)
    requires |w| == |population| && i < |draws|
    ensures Picks(population, w, total, draws[..i + 1]) ==
      Picks(population, w, total, draws[..i]) + Pick(population, w, draws[i], total)
  {
    var prefix := draws[..i + 1];
    assert prefix[..|prefix| - 1] == draws[..i] && prefix[|prefix| - 1] == draws[i];
  }

  /**
   * The inner loop of rouletteWheelSelection: accumulate the weights until
   * the cumulative weight reaches the drawn value, and stop there.
   */
  method SpinWheel(population: seq<Chromosome>, weight: Chromosome -> real, randomValue: real)
    returns (stop: Option<nat>)
    ensures stop == Spin(Weights(population, weight), randomValue)
  {
    ghost var w := Weights(population, weight);
    var cumulativeFitness := 0.0;
    var k := 0;
    while k < |population|
      invariant 0 <= k <= |population|
      invariant cumulativeFitness == Cumulative(w, k)
      invariant Spin(w, randomValue) == Scan(w, randomValue, k)
    {
      cumulativeFitness := cumulativeFitness + weight(population[k]);
      if cumulativeFitness >= randomValue {
        return Some(k);
      }
      k := k + 1;
    }
    return None;
  }

  /**
   * rouletteWheelSelection: one spin per member of the population, each
   * picking the first member whose cumulative weight reaches the draw times
   * the total weight; there is no fallback.
   */
  method RouletteWheelSelection(population: seq<Chromosome>, weight: Chromosome -> real, draws: seq<real>)
    returns (selectedPopulation: seq<Chromosome>)
    requires |draws| == |population|
    ensures var w := Weights(population, weight);
      selectedPopulation == Picks(population, w, Total(w), draws)
    ensures |selectedPopulation| <= |population|
    ensures forall x :: x in selectedPopulation ==> x in population
  {
    var w := Weights(population, weight);
    var totalFitness := Total(w);
    selectedPopulation := [];
    for i := 0 to |population|
      invariant selectedPopulation == Picks(population, w, totalFitness, draws[..i])
    {
      var stop := SpinWheel(population, weight, Scaled(draws[i], totalFitness));
      PicksStep(population, w, totalFitness, draws, i);
      assert Pick(population, w, draws[i], totalFitness) == if stop.Some? then [population[stop.value]] else [];
      if stop.Some? {
        selectedPopulation := selectedPopulation + [population[stop.value]];
      }
    }
    assert draws[..|population|] == draws;
  }

  /**
   * The body of the pairing loop: with a coin below the rate, cross the
   * parents over and mutate both children; otherwise keep the parents.
   */
  method BreedPair(parent1: Chromosome, parent2: Chromosome, d: PairDraws, crossoverRate: real)
    returns (child1: Chromosome, child2: Chromosome)
    requires ValidPairDraws(d) && |parent1| >= CHROMOSOME_LENGTH && |parent2| >= CHROMOSOME_LENGTH
    ensures (child1, child2) == Breed(parent1, parent2, d, crossoverRate)
  {
    if d.coin < crossoverRate {
      var offspring := Crossover(parent1, parent2, d.point);
      child1 := Mutate(offspring.0, d.mask1);
      child2 := Mutate(offspring.1, d.mask2);
    } else {
      child1, child2 := parent1, parent2;
    }
  }

  /** The pairing loop: pair i breeds parents[i] with parents[i + 1], for i < pairs. */
  method PairAndBreed(parents: seq<Chromosome>, pairs: nat, draws: seq<PairDraws>, crossoverRate: real)
    returns (bred: seq<Chromosome>)
    requires pairs <= |draws| && AllValid(draws) && LongEnough(parents)
    requires pairs == 0 || pairs < |parents|
    ensures bred == PairUp(parents, pairs, draws, crossoverRate)
  {
    bred := [];
    for i := 0 to pairs
      invariant bred == PairUp(parents, i, draws, crossoverRate)
    {
      assert parents[i] in parents && parents[i + 1] in parents;
      var child1, child2 := BreedPair(parents[i], parents[i + 1], draws[i], crossoverRate);
      bred := bred + [child1, child2];
    }
  }

  /**
   * evolvePopulation: roulette selection, then pairs (i, i + 1) of the
   * selection for i < |selection| / 2, then the cut to POPULATION_SIZE.
   * The result has 2 * (|selection| / 2) members, never more than the
   * population, so on a population of POPULATION_SIZE the cut never fires.
   */
  method EvolvePopulation(population: seq<Chromosome>, weight: Chromosome -> real,
                          selectionDraws: seq<real>, pairDraws: seq<PairDraws>)
    returns (newPopulation: seq<Chromosome>)
    requires |selectionDraws| == |population| && LongEnough(population)
    requires |pairDraws| >= |population| / 2 && AllValid(pairDraws)
    ensures var w := Weights(population, weight);
      var selected := Picks(population, w, Total(w), selectionDraws);
      var bred := PairUp(selected, |selected| / 2, pairDraws, CROSSOVER_RATE);
      newPopulation == (if |bred| > POPULATION_SIZE then bred[..POPULATION_SIZE] else bred)
    ensures var w := Weights(population, weight);
      var selected := Picks(population, w, Total(w), selectionDraws);
      |population| <= POPULATION_SIZE ==> |newPopulation| == 2 * (|selected| / 2) <= |population|
  {
    var selectedPopulation := RouletteWheelSelection(population, weight, selectionDraws);
    assert LongEnough(selectedPopulation);
    newPopulation := PairAndBreed(selectedPopulation, |selectedPopulation| / 2, pairDraws, CROSSOVER_RATE);
    if |newPopulation| > POPULATION_SIZE {
      newPopulation := newPopulation[..POPULATION_SIZE];
    }
  }

  /**
   * findBest: `Collections.min` by the objective of the decoded value,
   * abstracted here to an integer score; the first chromosome of least score.
   */
  method FindBest(population: seq<Chromosome>, score: Chromosome -> int) returns (best: Chromosome)
    requires |population| > 0
    ensures best in population
    ensures forall x :: x in population ==> score(best) <= score(x)
    ensures exists k ::
      0 <= k < |population| && best == population[k] && forall j :: 0 <= j < k ==> score(population[j]) > score(best)
  {
    var k;
    best, k := FirstMin(population, score);
  }

  // ------------------------------------------------- the sequence search

  /** The sort key of findBinarySequence: autocorrelation. */
  function SidelobeKey(s: Chromosome): int { PeakSidelobe(s) }

  /**
   * One generation of findBinarySequence: sort the list in place by
   * autocorrelation, then pairs (i, i + 1) for i < P / 2 with the class's
   * crossover (cut below 20) and mutation (first 20 bits only).
   */
  method SequenceGeneration(population: array<Chromosome>, pairDraws: seq<PairDraws>)
    returns (newPopulation: seq<Chromosome>)
    requires population.Length > SEQUENCE_POPULATION / 2 && LongEnough(population[..])
    requires |pairDraws| >= SEQUENCE_POPULATION / 2 && AllValid(pairDraws)
    modifies population
    ensures population[..] == SortByKey(old(population[..]), SidelobeKey)
    ensures LongEnough(population[..])
    ensures newPopulation == PairUp(population[..], SEQUENCE_POPULATION / 2, pairDraws, SEQUENCE_CROSSOVER_RATE)
  {
    SortByKeyMembers(population[..], SidelobeKey);
    SortInPlace(population, SidelobeKey);
    SortByKeyPermutation(old(population[..]), SidelobeKey);
    assert LongEnough(population[..]);
    newPopulation := PairAndBreed(population[..], SEQUENCE_POPULATION / 2, pairDraws, SEQUENCE_CROSSOVER_RATE);
  }

  predicate GenerationDraws(draws: seq<seq<PairDraws>>)
  {
    forall g :: 0 <= g < |draws| ==> |draws[g]| >= SEQUENCE_POPULATION / 2 && AllValid(draws[g])
  }

  /** One generation of the sequence search, as a function of the unsorted population. */
  function NextSequencePopulation(population: seq<Chromosome>, draws: seq<PairDraws>): seq<Chromosome>
    requires |population| > SEQUENCE_POPULATION / 2 && LongEnough(population)
    requires |draws| >= SEQUENCE_POPULATION / 2 && AllValid(draws)
  {
    SortByKeyMembers(population, SidelobeKey);
    SortByKeyPermutation(population, SidelobeKey);
    PairUp(SortByKey(population, SidelobeKey), SEQUENCE_POPULATION / 2, draws, SEQUENCE_CROSSOVER_RATE)
  }

  /** Sorting keeps the population's size and the common length of its members. */
  lemma SortedLengths(population: seq<Chromosome>, len: nat)
    requires AllOfLength(population, len)
    ensures |SortByKey(population, SidelobeKey)| == |population|
    ensures AllOfLength(SortByKey(population, SidelobeKey), len)
  {
    SortByKeyMembers(population, SidelobeKey);
    SortByKeyPermutation(population, SidelobeKey);
  }

  /** A generation of 35-bit sequences is again P sequences of 35 bits. */
  lemma NextSequencePopulationShape(population: seq<Chromosome>, draws: seq<PairDraws>)
    requires |population| > SEQUENCE_POPULATION / 2 && AllOfLength(population, SEQUENCE_LENGTH)
    requires |draws| >= SEQUENCE_POPULATION / 2 && AllValid(draws)
    ensures LongEnough(population)
    ensures |NextSequencePopulation(population, draws)| == SEQUENCE_POPULATION
    ensures AllOfLength(NextSequencePopulation(population, draws), SEQUENCE_LENGTH)
  {
    var sorted := SortByKey(population, SidelobeKey);
    SortedLengths(population, SEQUENCE_LENGTH);
    PairUpKeepsLength(sorted, SEQUENCE_POPULATION / 2, draws, SEQUENCE_CROSSOVER_RATE, SEQUENCE_LENGTH);
  }

  /** The population after one generation per entry of draws. */
  function SequenceSearch(population: seq<Chromosome>, draws: seq<seq<PairDraws>>): (final: seq<Chromosome>)
    requires |population| > SEQUENCE_POPULATION / 2 && AllOfLength(population, SEQUENCE_LENGTH)
    requires GenerationDraws(draws)
    ensures draws != [] ==> |final| == SEQUENCE_POPULATION
    decreases |draws|
  {
    if draws == [] then population
    else
      NextSequencePopulationShape(population, draws[0]);
      SequenceSearch(NextSequencePopulation(population, draws[0]), draws[1..])
  }

  /**
   * findBinarySequence: MAX_GENERATIONS generations, then the first K
   * members of the final population are reported as the "best".  That
   * population is the last generation's offspring list, which is not sorted.
   */
  method FindBinarySequence(initial: seq<Chromosome>, draws: seq<seq<PairDraws>>) returns (reported: seq<Chromosome>)
    requires |initial| == SEQUENCE_POPULATION && AllOfLength(initial, SEQUENCE_LENGTH)
    requires |draws| == MAX_GENERATIONS && GenerationDraws(draws)
    ensures reported == SequenceSearch(initial, draws)[..SEQUENCE_K]
  {
    var population := initial;
    for generation := 0 to MAX_GENERATIONS
      invariant |population| == SEQUENCE_POPULATION && AllOfLength(population, SEQUENCE_LENGTH)
      invariant SequenceSearch(initial, draws) == SequenceSearch(population, draws[generation..])
    {
      NextSequencePopulationShape(population, draws[generation]);
      var list := new Chromosome[|population|](i requires 0 <= i < |population| => population[i]);
      assert list[..] == population;
      var newPopulation := SequenceGeneration(list, draws[generation]);
      assert newPopulation == NextSequencePopulation(population, draws[generation]);
      assert draws[generation..][1..] == draws[generation + 1..];
      population := newPopulation;
    }
    reported := population[..SEQUENCE_K];
  }

  /**
   * The report need not hold the best sequences: with an unsorted final
   * population the first K can all be worse than a later member.
   */
  lemma FirstKAreNotTheBest(n: nat)
    requires n >= 3
    ensures var lone := ['1'] + Zeros(n - 1);
      var final := [Zeros(n), Zeros(n), Zeros(n), lone];
      forall x :: x in final[..SEQUENCE_K] ==> PeakSidelobe(x) > PeakSidelobe(lone)
  {
    var zeros := Zeros(n);
    var lone := ['1'] + Zeros(n - 1);
    assert Constant(zeros);
    PeakSidelobeConstant(zeros);
    LoneLeadingOne(n - 1);
    var final := [zeros, zeros, zeros, lone];
    assert final[..SEQUENCE_K] == [zeros, zeros, zeros];
  }

  // ----------------------------------------------------- autocorrelation

  /**
   * autocorrelation: for each shift, +1 per agreeing and -1 per differing
   * pair of characters; the result is the largest absolute sum.
   */
  method Autocorrelation(sequence: seq<char>) returns (maxSideLobe: int)
    ensures maxSideLobe == PeakSidelobe(sequence)
    ensures 0 <= maxSideLobe && (|sequence| >= 1 ==> maxSideLobe <= |sequence| - 1)
  {
    maxSideLobe := 0;
    var shift := 1;
    while shift < |sequence|
      invariant 1 <= shift <= |sequence| + 1 && (shift <= |sequence| || shift == 1)
      invariant maxSideLobe == PeakUpTo(sequence, shift)
    {
      var sum := ShiftSum(sequence, shift);
      assert PeakUpTo(sequence, shift + 1) == Max(PeakUpTo(sequence, shift), Abs(Correlation(sequence, shift)));
      maxSideLobe := Max(maxSideLobe, Abs(sum));
      shift := shift + 1;
    }
    assert PeakUpTo(sequence, shift) == PeakUpTo(sequence, |sequence|);
    PeakSidelobeRange(sequence);
  }

  /** The inner loop of autocorrelation: the sum C(shift) for one shift. */
  method ShiftSum(sequence: seq<char>, shift: nat) returns (sum: int)
    requires shift <= |sequence|
    ensures sum == Correlation(sequence, shift)
  {
    sum := 0;
    var i := 0;
    ghost var terms := Terms(sequence, shift);
    while i < |sequence| - shift
      invariant 0 <= i <= |terms|
      invariant sum == Sum(terms[..i])
    {
      SumPrefixStep(terms, i);
      TermsAt(sequence, shift, i);
      sum := sum + (if sequence[i] == sequence[i + shift] then 1 else -1);
      i := i + 1;
    }
    assert terms[..i] == terms;
  }

  /** The length-7 Barker sequence 1110010 has peak sidelobe 1. */
  lemma Barker7()
    ensures PeakSidelobe("1110010") == 1
  {
    var s := "1110010";
    assert Terms(s, 1) == [1, 1, -1, 1, -1, -1];
    assert Terms(s, 2) == [1, -1, -1, -1, 1];
    assert Terms(s, 3) == [-1, -1, 1, 1];
    assert Terms(s, 4) == [-1, 1, -1];
    assert Terms(s, 5) == [1, -1];
    assert Terms(s, 6) == [-1];
    assert PeakUpTo(s, 2) == 0;
    assert PeakUpTo(s, 3) == 1;
    assert PeakUpTo(s, 4) == 1;
    assert PeakUpTo(s, 5) == 1;
    assert PeakUpTo(s, 6) == 1;
    assert PeakUpTo(s, 7) == 1;
  }
}
