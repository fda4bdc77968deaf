/**
 * The peak-sidelobe search: a genetic algorithm over 35-bit sequences that
 * looks for K distinct sequences whose peak sidelobe level (PSL) is at most
 * TARGET_PSL.  Each generation scores the population into a map, adds the
 * lowest-scoring qualifying sequences to an insertion-ordered set of
 * solutions, stops once that set holds K of them, and otherwise builds the
 * next population from five elites plus roulette-selected, crossed and
 * mutated offspring.  Every random draw is a parameter.
 */
module GeneticAlgorithmPSL {
  import opened Bits
  import opened Sidelobe
  import opened Ranking
  import opened Roulette
  import opened OnePoint

  const N := 35
  const POPULATION_SIZE := 70
  const TARGET_PSL := 4
  const K := 3
  const CROSSOVER_RATE: real := 0.8
  const MUTATION_RATE: real := 0.2
  const MAX_GENERATIONS := 1000
  const ELITISM_COUNT := 5

  // ------------------------------------------------------------ scoring

  /** calculatePSL reads '1' as +1 and every other character as -1. */
  function Bipolar(c: char): int { if c == '1' then 1 else -1 }

  /** The bit a character stands for in calculatePSL: '1' is 1, anything else 0. */
  function BitOf(c: char): char { if c == '1' then '1' else '0' }

  function Binarize(s: seq<char>): (b: seq<char>)
    ensures |b| == |s| && IsBitString(b)
    ensures forall i :: 0 <= i < |s| ==> b[i] == BitOf(s[i])
  {
    seq(|s|, i requires 0 <= i < |s| => BitOf(s[i]))
  }

  /** The PSL calculatePSL computes: the peak sidelobe of the first N characters, read as bits. */
  function Psl(s: seq<char>): nat
    requires |s| >= N
  {
    PeakSidelobe(Binarize(s[..N]))
  }

  /**
   * calculatePSL: the first N characters become +1 / -1 in an int array;
   * for each shift 1 <= k < N the products of the pairs k apart are summed,
   * and the result is the largest absolute sum.  Only the first N
   * characters are read; a shorter string makes `charAt` throw.
   */
  method CalculatePSL(sequence: seq<char>) returns (maxPSL: int)
    requires |sequence| >= N
    ensures maxPSL == Psl(sequence)
    ensures 0 <= maxPSL <= N - 1
  {
    var signs := new int[N];
    for i := 0 to N
      invariant forall j :: 0 <= j < i ==> signs[j] == Bipolar(sequence[j])
    {
      signs[i] := if sequence[i] == '1' then 1 else -1;
    }
    ghost var b := Binarize(sequence[..N]);
    maxPSL := 0;
    for shift := 1 to N
      invariant forall j :: 0 <= j < N ==> signs[j] == Bipolar(sequence[j])
      invariant maxPSL == PeakUpTo(b, shift)
    {
      var correlation := ShiftCorrelation(signs, sequence, shift);
      maxPSL := Max(maxPSL, Abs(correlation));
    }
    PeakSidelobeRange(b);
  }

  /** The inner loop of calculatePSL: the sum of products of the signs shift apart. */
  method ShiftCorrelation(signs: array<int>, sequence: seq<char>, shift: nat) returns (correlation: int)
    requires |sequence| >= N && signs.Length == N && 1 <= shift < N
    requires forall j :: 0 <= j < N ==> signs[j] == Bipolar(sequence[j])
    ensures correlation == Correlation(Binarize(sequence[..N]), shift)
  {
    ghost var b := Binarize(sequence[..N]);
    ghost var terms := Terms(b, shift);
    correlation := 0;
    for i := 0 to N - shift
      invariant correlation == Sum(terms[..i])
    {
      SumPrefixStep(terms, i);
      TermsAt(b, shift, i);
      BinarizeAt(sequence, i);
      BinarizeAt(sequence, i + shift);
      SignProduct(signs[i], signs[i + shift], sequence[i], sequence[i + shift]);
      correlation := correlation + signs[i] * signs[i + shift];
    }
    assert terms[..N - shift] == terms;
  }

  lemma BinarizeAt(s: seq<char>, i: nat)
    requires i < N <= |s|
    ensures Binarize(s[..N])[i] == BitOf(s[i])
  {
  }

  /** The product of two signs is +1 exactly when the bits they stand for agree. */
  lemma SignProduct(x: int, y: int, a: char, b: char)
    requires x == Bipolar(a) && y == Bipolar(b)
    ensures x * y == Agreement(BitOf(a), BitOf(b))
  {
  }

  /** On a 35-character bit string calculatePSL and autocorrelation compute the same value. */
  lemma PslIsPeakSidelobe(s: seq<char>)
    requires |s| == N && IsBitString(s)
    ensures Psl(s) == PeakSidelobe(s)
  {
    assert s[..N] == s;
    assert Binarize(s) == s;
  }

  /** A constant sequence scores the worst value, N - 1. */
  lemma PslOfConstant(c: char)
    ensures Psl(Repeat(c, N)) == N - 1
  {
    var s := Repeat(c, N);
    assert s[..N] == s;
    PeakSidelobeConstant(Binarize(s));
  }

  /** Reversing a sequence does not change its score. */
  lemma PslReverse(s: seq<char>)
    requires |s| == N
    ensures Psl(Reverse(s)) == Psl(s)
  {
    assert s[..N] == s;
    assert Reverse(s)[..N] == Reverse(s);
    forall i | 0 <= i < N ensures Binarize(Reverse(s))[i] == Reverse(Binarize(s))[i] {
      ReverseAt(s, i);
      ReverseAt(Binarize(s), i);
    }
    assert Binarize(Reverse(s)) == Reverse(Binarize(s));
    PeakSidelobeReverse(Binarize(s));
  }

  // ---------------------------------------------------------- operators

  /**
   * crossover: the cut is `nextInt(N - 1) + 1`, drawn here as cutDraw in
   * [0, N - 1), so it lies in [1, N - 1] and both children keep the first
   * character of their first parent.
   */
  function Crossover(parent1: Chromosome, parent2: Chromosome, cutDraw: int): (children: (Chromosome, Chromosome))
    requires 0 <= cutDraw < N - 1 && cutDraw + 1 <= |parent1| && cutDraw + 1 <= |parent2|
    ensures |children.0| == |parent2| && |children.1| == |parent1|
    ensures children.0[0] == parent1[0] && children.1[0] == parent2[0]
  {
    var children := Splice(parent1, parent2, cutDraw + 1);
    assert children.0[0] == (parent1[..cutDraw + 1] + parent2[cutDraw + 1..])[0];
    assert children.1[0] == (parent2[..cutDraw + 1] + parent1[cutDraw + 1..])[0];
    children
  }

  /** Between equally long parents, every position keeps the parents' two characters. */
  lemma CrossoverExchanges(parent1: Chromosome, parent2: Chromosome, cutDraw: int)
    requires 0 <= cutDraw < N - 1 && cutDraw + 1 <= |parent1| == |parent2|
    ensures var children := Crossover(parent1, parent2, cutDraw);
      forall i :: 0 <= i < |parent1| ==> multiset{children.0[i], children.1[i]} == multiset{parent1[i], parent2[i]}
  {
    SpliceExchanges(parent1, parent2, cutDraw + 1);
  }

  /**
   * What mutate returns: the input itself when the gate draw is at least
   * MUTATION_RATE, otherwise the input with the character at the drawn
   * point flipped.
   */
  function Mutation(sequence: Chromosome, gate: real, point: int): (mutated: Chromosome)
    requires 0 <= point < N && (gate < MUTATION_RATE ==> point < |sequence|)
    ensures |mutated| == |sequence|
  {
    if gate >= MUTATION_RATE then sequence else sequence[point := Flip(sequence[point])]
  }

  /** mutate: a char-array copy with one character flipped, behind a gate draw. */
  method Mutate(sequence: Chromosome, gate: real, point: int) returns (mutated: Chromosome)
    requires 0 <= point < N && (gate < MUTATION_RATE ==> point < |sequence|)
    ensures mutated == Mutation(sequence, gate, point)
    ensures gate >= MUTATION_RATE ==> mutated == sequence
    ensures gate < MUTATION_RATE ==>
      |mutated| == |sequence| && mutated[point] != sequence[point] &&
      forall j :: 0 <= j < |sequence| && j != point ==> mutated[j] == sequence[j]
  {
    if gate >= MUTATION_RATE {
      return sequence;
    }
    var chars := new char[|sequence|](j requires 0 <= j < |sequence| => sequence[j]);
    chars[point] := if chars[point] == '0' then '1' else '0';
    mutated := chars[..];
  }

  /** A firing mutation changes exactly one character, one that lies below N. */
  lemma MutationFlipsOne(sequence: Chromosome, gate: real, point: int)
    requires 0 <= point < N && point < |sequence|
    ensures Hamming(sequence, Mutation(sequence, gate, point)) == if gate < MUTATION_RATE then 1 else 0
  {
    if gate < MUTATION_RATE {
      HammingUpdate(sequence, point, Flip(sequence[point]));
    } else {
      HammingSame(sequence);
    }
  }

  // ---------------------------------------------------------- selection

  /** The roulette weight of a sequence: 1 / (1 + PSL), exact here, a double in the program. */
  function Fitness(psl: int): real
    requires psl >= 0
  {
    1.0 / (1 + psl) as real
  }

  /** Every member of the population has a non-negative score in the map. */
  predicate Scored(population: seq<Chromosome>, pslMap: map<Chromosome, int>)
  {
    forall x :: x in population ==> x in pslMap && pslMap[x] >= 0
  }

  function Weights(population: seq<Chromosome>, pslMap: map<Chromosome, int>): (w: seq<real>)
    requires Scored(population, pslMap)
    ensures |w| == |population|
    ensures forall i :: 0 <= i < |w| ==> w[i] > 0.0
  {
    seq(|population|, i requires 0 <= i < |population| => Fitness(pslMap[population[i]]))
  }

  /** The member a spin of value r selects: the first one reached, or the last as a fallback. */
  function Choice(population: seq<Chromosome>, w: seq<real>, r: real): (chosen: Chromosome)
    requires |w| == |population| > 0
    ensures chosen in population
  {
    match Spin(w, r)
    case Some(k) => population[k]
    case None => population[|population| - 1]
  }

  /**
   * selectParent: walk the population accumulating 1 / (1 + PSL) and return
   * the first member whose running total reaches draw * totalFitness; if
   * none does, return the last member.
   */
  method SelectParent(population: seq<Chromosome>, pslMap: map<Chromosome, int>, totalFitness: real, draw: real)
    returns (parent: Chromosome)
    requires |population| > 0 && Scored(population, pslMap)
    ensures parent == Choice(population, Weights(population, pslMap), Scaled(draw, totalFitness))
    ensures parent in population
  {
    var w := Weights(population, pslMap);
    var randomValue := Scaled(draw, totalFitness);
    var cumulativeFitness := 0.0;
    for k := 0 to |population|
      invariant cumulativeFitness == Cumulative(w, k)
      invariant Spin(w, randomValue) == Scan(w, randomValue, k)
    {
      cumulativeFitness := cumulativeFitness + Fitness(pslMap[population[k]]);
      if cumulativeFitness >= randomValue {
        return population[k];
      }
    }
    parent := population[|population| - 1];
  }

  /**
   * The choice is the first member whose cumulative weight reaches the
   * spin; the fallback is taken only when no cumulative weight reaches it,
   * which never happens for a draw in [0, 1) scaled by the total weight,
   * since every weight 1 / (1 + PSL) is positive.
   */
  lemma ChoiceIsFirstReaching(population: seq<Chromosome>, pslMap: map<Chromosome, int>, r: real)
    requires |population| > 0 && Scored(population, pslMap)
    ensures var w := Weights(population, pslMap);
      (exists k :: 0 <= k < |w| && Reaches(w, r, k)) ==>
        exists k :: 0 <= k < |w| && Reaches(w, r, k) && Choice(population, w, r) == population[k] &&
          forall j :: 0 <= j < k ==> !Reaches(w, r, j)
  {
    var w := Weights(population, pslMap);
    SpinIsFirstReaching(w, r);
  }

  lemma FallbackUnused(population: seq<Chromosome>, pslMap: map<Chromosome, int>, draw: real)
    requires |population| > 0 && Scored(population, pslMap)
    requires 0.0 <= draw < 1.0
    ensures var w := Weights(population, pslMap);
      Spin(w, Scaled(draw, Total(w))).Some?
  {
    var w := Weights(population, pslMap);
    PositiveWeightsAlwaysReach(w, draw);
  }

  // ---------------------------------------------------------- evolution

  /** The draws one round of the fill loop consumes. */
  datatype BreedDraws = BreedDraws(select1: real, select2: real, coin: real, cut: int,
                                   gate1: real, point1: int, gate2: real, point2: int)

  /** The cut draw lies in [0, N - 1) and the mutation points in [0, N). */
  predicate ValidDraw(d: BreedDraws)
  {
    0 <= d.cut < N - 1 && 0 <= d.point1 < N && 0 <= d.point2 < N
  }

  predicate ValidBreedDraws(draws: seq<BreedDraws>)
  {
    forall i :: 0 <= i < |draws| ==> ValidDraw(draws[i])
  }

  /** `Comparator.comparingInt(pslMap::get)`, on the keys the map holds. */
  function PslKey(pslMap: map<Chromosome, int>): Chromosome -> int
  {
    (x: Chromosome) => if x in pslMap then pslMap[x] else 0
  }

  function Min(a: int, b: int): int { if a < b then a else b }

  /** The first ELITISM_COUNT members of the population in stable PSL order. */
  function Elites(population: seq<Chromosome>, pslMap: map<Chromosome, int>): (elites: seq<Chromosome>)
    ensures |elites| == Min(ELITISM_COUNT, |population|)
  {
    SortByKeyPermutation(population, PslKey(pslMap));
    SortByKey(population, PslKey(pslMap))[..Min(ELITISM_COUNT, |population|)]
  }

  /**
   * The elites are members of the population, and none of the members left
   * out scores lower than any elite.
   */
  lemma ElitesAreLowest(population: seq<Chromosome>, pslMap: map<Chromosome, int>)
    requires Scored(population, pslMap)
    ensures forall e :: e in Elites(population, pslMap) ==> e in population
    ensures var elites := Elites(population, pslMap);
      multiset(elites) <= multiset(population) &&
      forall e, x :: e in elites && x in population && x !in elites ==> pslMap[e] <= pslMap[x]
  {
    var key := PslKey(pslMap);
    var sorted := SortByKey(population, key);
    var m := Min(ELITISM_COUNT, |population|);
    var elites := Elites(population, pslMap);
    SortByKeyPermutation(population, key);
    SortByKeyMembers(population, key);
    SortedPrefixIsLowest(population, key, m);
    assert sorted == elites + sorted[m..];
    assert multiset(sorted) == multiset(elites) + multiset(sorted[m..]);
    forall e, x | e in elites && x in population && x !in elites
      ensures pslMap[e] <= pslMap[x]
    {
      var i :| 0 <= i < m && sorted[i] == e;
      var j :| 0 <= j < |sorted| && sorted[j] == x;
      assert j >= m;
      assert key(e) <= key(x);
    }
  }

  /** Two offspring of one fill round: two roulette parents, maybe crossed, each maybe mutated. */
  function Offspring(population: seq<Chromosome>, pslMap: map<Chromosome, int>, totalFitness: real, d: BreedDraws)
    : (children: seq<Chromosome>)
    requires |population| > 0 && Scored(population, pslMap) && AllOfLength(population, N)
    requires ValidDraw(d)
    ensures |children| == 2 && AllOfLength(children, N)
  {
    var w := Weights(population, pslMap);
    var parent1 := Choice(population, w, Scaled(d.select1, totalFitness));
    var parent2 := Choice(population, w, Scaled(d.select2, totalFitness));
    if d.coin < CROSSOVER_RATE then
      var crossed := Crossover(parent1, parent2, d.cut);
      [Mutation(crossed.0, d.gate1, d.point1), Mutation(crossed.1, d.gate2, d.point2)]
    else
      [Mutation(parent1, d.gate1, d.point1), Mutation(parent2, d.gate2, d.point2)]
  }

  /** The offspring of successive fill rounds, in the order they are appended. */
  function Bred(population: seq<Chromosome>, pslMap: map<Chromosome, int>, totalFitness: real, draws: seq<BreedDraws>)
    : (bred: seq<Chromosome>)
    requires |population| > 0 && Scored(population, pslMap) && AllOfLength(population, N)
    requires ValidBreedDraws(draws)
    ensures |bred| == 2 * |draws|
  {
    if draws == [] then []
    else
      Bred(population, pslMap, totalFitness, draws[..|draws| - 1]) +
      Offspring(population, pslMap, totalFitness, draws[|draws| - 1])
  }

  lemma {:induction false} BredHasLengthN(population: seq<Chromosome>, pslMap: map<Chromosome, int>, totalFitness: real,
                                          draws: seq<BreedDraws>)
    requires |population| > 0 && Scored(population, pslMap) && AllOfLength(population, N)
    requires ValidBreedDraws(draws)
    ensures AllOfLength(Bred(population, pslMap, totalFitness, draws), N)
  {
    if draws != [] {
      BredHasLengthN(population, pslMap, totalFitness, draws[..|draws| - 1]);
    }
  }

  /** One round of the fill loop: two parents, a crossover coin, two gated mutations. */
  method BreedRound(population: seq<Chromosome>, pslMap: map<Chromosome, int>, totalFitness: real, d: BreedDraws)
    returns (child1: Chromosome, child2: Chromosome)
    requires |population| > 0 && Scored(population, pslMap) && AllOfLength(population, N)
    requires ValidDraw(d)
    ensures [child1, child2] == Offspring(population, pslMap, totalFitness, d)
  {
    var parent1 := SelectParent(population, pslMap, totalFitness, d.select1);
    var parent2 := SelectParent(population, pslMap, totalFitness, d.select2);
    if d.coin < CROSSOVER_RATE {
      var children := Crossover(parent1, parent2, d.cut);
      child1 := Mutate(children.0, d.gate1, d.point1);
      child2 := Mutate(children.1, d.gate2, d.point2);
    } else {
      child1 := Mutate(parent1, d.gate1, d.point1);
      child2 := Mutate(parent2, d.gate2, d.point2);
    }
  }

  lemma BredStep(population: seq<Chromosome>, pslMap: map<Chromosome, int>, totalFitness: real,
                 draws: seq<BreedDraws>, round: nat)
    requires |population| > 0 && Scored(population, pslMap) && AllOfLength(population, N)
    requires round < |draws| && ValidBreedDraws(draws)
    ensures Bred(population, pslMap, totalFitness, draws[..round + 1]) ==
      Bred(population, pslMap, totalFitness, draws[..round]) + Offspring(population, pslMap, totalFitness, draws[round])
  {
    assert draws[..round + 1][..round] == draws[..round];
  }

  lemma AppendAssociates(a: seq<Chromosome>, b: seq<Chromosome>, c: seq<Chromosome>)
    ensures (a + b) + c == a + (b + c)
  {
  }

  /** Rounds of the fill loop after e elites: two children per round until the size reaches POPULATION_SIZE. */
  function FillRounds(e: nat): nat
    requires e <= POPULATION_SIZE
  {
    (POPULATION_SIZE - e + 1) / 2
  }

  /** Appends one round's two children to a population that holds the previous rounds' offspring. */
  method AppendRound(population: seq<Chromosome>, pslMap: map<Chromosome, int>, totalFitness: real,
                     elites: seq<Chromosome>, draws: seq<BreedDraws>, round: nat, current: seq<Chromosome>)
    returns (next: seq<Chromosome>)
    requires |population| > 0 && Scored(population, pslMap) && AllOfLength(population, N)
    requires round < |draws| && ValidBreedDraws(draws)
    requires current == elites + Bred(population, pslMap, totalFitness, draws[..round])
    ensures next == elites + Bred(population, pslMap, totalFitness, draws[..round + 1])
    ensures |next| == |current| + 2
  {
    var child1, child2 := BreedRound(population, pslMap, totalFitness, draws[round]);
    BredStep(population, pslMap, totalFitness, draws, round);
    AppendAssociates(elites, Bred(population, pslMap, totalFitness, draws[..round]), [child1, child2]);
    next := current + [child1, child2];
  }

  /**
   * The fill loop of evolvePopulation: rounds of two children appended to
   * the elites while the size is below POPULATION_SIZE.  Each round adds
   * two, so the loop ends, after FillRounds(|elites|) rounds.
   */
  method Fill(population: seq<Chromosome>, pslMap: map<Chromosome, int>, totalFitness: real,
              elites: seq<Chromosome>, draws: seq<BreedDraws>)
    returns (newPopulation: seq<Chromosome>)
    requires |population| > 0 && Scored(population, pslMap) && AllOfLength(population, N)
    requires |elites| <= ELITISM_COUNT
    requires |draws| >= POPULATION_SIZE / 2 && ValidBreedDraws(draws)
    ensures newPopulation == elites + Bred(population, pslMap, totalFitness, draws[..FillRounds(|elites|)])
  {
    newPopulation := elites;
    var round := 0;
    while |newPopulation| < POPULATION_SIZE
      invariant 0 <= round <= FillRounds(|elites|)
      invariant |newPopulation| == |elites| + 2 * round
      invariant newPopulation == elites + Bred(population, pslMap, totalFitness, draws[..round])
      decreases POPULATION_SIZE - |newPopulation|
    {
      newPopulation := AppendRound(population, pslMap, totalFitness, elites, draws, round, newPopulation);
      round := round + 1;
    }
    assert round == FillRounds(|elites|);
  }

  /**
   * evolvePopulation: the elites, then the fill loop.  After 5 elites, 33
   * rounds bring the size to 71, one more than POPULATION_SIZE.
   */
  method EvolvePopulation(population: seq<Chromosome>, pslMap: map<Chromosome, int>, draws: seq<BreedDraws>)
    returns (newPopulation: seq<Chromosome>)
    requires |population| > 0 && Scored(population, pslMap) && AllOfLength(population, N)
    requires |draws| >= POPULATION_SIZE / 2 && ValidBreedDraws(draws)
    ensures newPopulation == Evolved(population, pslMap, draws)
    ensures |newPopulation| == POPULATION_SIZE || |newPopulation| == POPULATION_SIZE + 1
    ensures |population| >= ELITISM_COUNT ==> |newPopulation| == POPULATION_SIZE + 1
    ensures AllOfLength(newPopulation, N)
  {
    var elites := Elites(population, pslMap);
    var totalFitness := Total(Weights(population, pslMap));
    newPopulation := Fill(population, pslMap, totalFitness, elites, draws);
    EvolvedShape(population, pslMap, draws);
  }

  /** The population evolvePopulation returns, as a function of its inputs and draws. */
  function Evolved(population: seq<Chromosome>, pslMap: map<Chromosome, int>, draws: seq<BreedDraws>): seq<Chromosome>
    requires |population| > 0 && Scored(population, pslMap) && AllOfLength(population, N)
    requires |draws| >= POPULATION_SIZE / 2 && ValidBreedDraws(draws)
  {
    var elites := Elites(population, pslMap);
    elites + Bred(population, pslMap, Total(Weights(population, pslMap)), draws[..FillRounds(|elites|)])
  }

  /** The evolved population has POPULATION_SIZE or POPULATION_SIZE + 1 members, all of length N. */
  lemma EvolvedShape(population: seq<Chromosome>, pslMap: map<Chromosome, int>, draws: seq<BreedDraws>)
    requires |population| > 0 && Scored(population, pslMap) && AllOfLength(population, N)
    requires |draws| >= POPULATION_SIZE / 2 && ValidBreedDraws(draws)
    ensures var next := Evolved(population, pslMap, draws);
      (|next| == POPULATION_SIZE || |next| == POPULATION_SIZE + 1) &&
      (|population| >= ELITISM_COUNT ==> |next| == POPULATION_SIZE + 1) &&
      AllOfLength(next, N)
  {
    var elites := Elites(population, pslMap);
    var rounds := FillRounds(|elites|);
    BredHasLengthN(population, pslMap, Total(Weights(population, pslMap)), draws[..rounds]);
    ElitesAreLowest(population, pslMap);
    assert AllOfLength(elites, N);
    if |population| >= ELITISM_COUNT {
      assert |elites| == ELITISM_COUNT && rounds == 33;
    }
  }

  // ------------------------------------------------ the initial population

  /** `Integer.toBinaryString` of a non-negative int: its binary digits without leading zeros. */
  function ToBinaryString(n: nat): (s: seq<char>)
    ensures |s| >= 1 && IsBitString(s)
  {
    if n < 2 then [if n == 0 then '0' else '1']
    else ToBinaryString(n / 2) + [if n % 2 == 0 then '0' else '1']
  }

  /** `String.format("%" + width + "s", s)`: left-padded with spaces to the width. */
  function PadLeft(s: seq<char>, width: nat): (padded: seq<char>)
    ensures |padded| == if |s| >= width then |s| else width
  {
    if |s| >= width then s else Repeat(' ', width - |s|) + s
  }

  /** `replace(' ', '0')`. */
  function ReplaceSpaces(s: seq<char>): (r: seq<char>)
    ensures |r| == |s|
  {
    seq(|s|, i requires 0 <= i < |s| => if s[i] == ' ' then '0' else s[i])
  }

  /** The chromosome initializePopulation makes from a drawn int. */
  function InitialChromosome(n: nat): seq<char>
  {
    ReplaceSpaces(PadLeft(ToBinaryString(n), N))
  }

  /** initializePopulation: one chromosome per int drawn from [0, 2). */
  function InitializePopulation(draws: seq<int>): (population: seq<Chromosome>)
    requires forall i :: 0 <= i < |draws| ==> 0 <= draws[i] < 2
    ensures |population| == |draws|
  {
    seq(|draws|, i requires 0 <= i < |draws| => InitialChromosome(draws[i]))
  }

  lemma {:induction false} ToBinaryStringValue(n: nat)
    ensures BinaryValue(ToBinaryString(n)) == n
  {
    if n >= 2 {
      ToBinaryStringValue(n / 2);
      var s := ToBinaryString(n);
      assert s[..|s| - 1] == ToBinaryString(n / 2);
    }
  }

  /**
   * The pipeline keeps the drawn value: the padded, zero-filled string
   * reads back as the int it was made from.
   */
  lemma InitialChromosomeValue(n: nat)
    ensures BinaryValue(InitialChromosome(n)) == n
    ensures IsBitString(InitialChromosome(n))
  {
    var t := ToBinaryString(n);
    ToBinaryStringValue(n);
    if |t| < N {
      assert InitialChromosome(n) == Zeros(N - |t|) + t;
      BinaryValueLeadingZeros(N - |t|, t);
    } else {
      assert InitialChromosome(n) == t;
    }
  }

  /**
   * Since the draws are 0 or 1, every initial chromosome is N - 1 zeros
   * followed by the drawn bit: only two distinct strings can occur.
   */
  lemma InitialPopulationIsTwoStrings(draws: seq<int>)
    requires forall i :: 0 <= i < |draws| ==> 0 <= draws[i] < 2
    ensures var population := InitializePopulation(draws);
      AllOfLength(population, N) &&
      forall i :: 0 <= i < |draws| ==>
        population[i] == Zeros(N - 1) + [if draws[i] == 0 then '0' else '1']
  {
    var population := InitializePopulation(draws);
    forall i | 0 <= i < |draws|
      ensures population[i] == Zeros(N - 1) + [if draws[i] == 0 then '0' else '1']
    {
      assert ToBinaryString(draws[i]) == [if draws[i] == 0 then '0' else '1'];
    }
  }

  // ------------------------------------------------------ the solution set

  predicate NoDuplicates(s: seq<Chromosome>)
  {
    forall i, j :: 0 <= i < j < |s| ==> s[i] != s[j]
  }

  /** Adds each of xs to an insertion-ordered set (a LinkedHashSet): appended unless already present. */
  function AddAll(set_: seq<Chromosome>, xs: seq<Chromosome>): seq<Chromosome>
  {
    if xs == [] then set_
    else
      var before := AddAll(set_, xs[..|xs| - 1]);
      if xs[|xs| - 1] in before then before else before + [xs[|xs| - 1]]
  }

  /** The set only grows, keeps its order, and gains at most one element per addition. */
  lemma {:induction false} AddAllGrows(set_: seq<Chromosome>, xs: seq<Chromosome>)
    ensures |set_| <= |AddAll(set_, xs)| <= |set_| + |xs|
    ensures AddAll(set_, xs)[..|set_|] == set_
  {
    if xs != [] {
      AddAllGrows(set_, xs[..|xs| - 1]);
    }
  }

  /** The set ends up holding exactly what it held and what was added, each once. */
  lemma {:induction false} AddAllMembers(set_: seq<Chromosome>, xs: seq<Chromosome>)
    ensures forall x :: x in AddAll(set_, xs) <==> x in set_ || x in xs
    ensures NoDuplicates(set_) ==> NoDuplicates(AddAll(set_, xs))
  {
    if xs != [] {
      AddAllMembers(set_, xs[..|xs| - 1]);
      forall x | x in xs ensures x in xs[..|xs| - 1] || x == xs[|xs| - 1] {
        var k :| 0 <= k < |xs| && xs[k] == x;
        if k < |xs| - 1 {
          assert xs[..|xs| - 1][k] == x;
        }
      }
    }
  }

  /** Distinct new elements are all appended: the set grows by exactly |xs|. */
  lemma {:induction false} AddAllFresh(set_: seq<Chromosome>, xs: seq<Chromosome>)
    requires NoDuplicates(xs) && forall x :: x in xs ==> x !in set_
    ensures |AddAll(set_, xs)| == |set_| + |xs|
  {
    if xs != [] {
      var init := xs[..|xs| - 1];
      AddAllFresh(set_, init);
      AddAllMembers(set_, init);
      assert xs[|xs| - 1] !in init;
    }
  }

  /**
   * A generation adds up to K solutions to a set still short of K, so the
   * set can overshoot K: K - 1 held plus K new distinct ones make 2K - 1.
   */
  lemma SolutionSetCanReachTwoKMinusOne(set_: seq<Chromosome>, candidates: seq<Chromosome>)
    requires |set_| == K - 1 && |candidates| == K
    requires NoDuplicates(candidates) && forall x :: x in candidates ==> x !in set_
    ensures |AddAll(set_, candidates)| == 2 * K - 1
  {
    AddAllFresh(set_, candidates);
  }

  /** The map iteration order's entries whose score is at most TARGET_PSL, in that order. */
  function Qualifying(order: seq<Chromosome>, pslMap: map<Chromosome, int>): (q: seq<Chromosome>)
    ensures forall x :: x in q <==> x in order && x in pslMap && pslMap[x] <= TARGET_PSL
  {
    if order == [] then []
    else
      var x := order[|order| - 1];
      Qualifying(order[..|order| - 1], pslMap) + if x in pslMap && pslMap[x] <= TARGET_PSL then [x] else []
  }

  /**
   * The entries a generation offers to the solution set: the qualifying
   * ones sorted stably by score, at most K of them.
   */
  function Candidates(pslMap: map<Chromosome, int>, order: seq<Chromosome>): (c: seq<Chromosome>)
    ensures |c| <= K
    ensures forall x :: x in c ==> x in pslMap && pslMap[x] <= TARGET_PSL
  {
    var sorted := SortByKey(Qualifying(order, pslMap), PslKey(pslMap));
    SortByKeyMembers(Qualifying(order, pslMap), PslKey(pslMap));
    sorted[..Min(K, |sorted|)]
  }

  /**
   * When the order lists every key, the candidates are lowest-scoring
   * qualifying keys: no qualifying key left out scores lower than a
   * candidate, and fewer than K are offered only when fewer qualify.
   */
  lemma CandidatesAreLowest(pslMap: map<Chromosome, int>, order: seq<Chromosome>)
    requires forall x :: x in pslMap ==> x in order
    ensures forall c, x ::
      (c in Candidates(pslMap, order) && x in pslMap && pslMap[x] <= TARGET_PSL && x !in Candidates(pslMap, order))
      ==> pslMap[c] <= pslMap[x]
    ensures |Candidates(pslMap, order)| == Min(K, |Qualifying(order, pslMap)|)
  {
    var key := PslKey(pslMap);
    var q := Qualifying(order, pslMap);
    var sorted := SortByKey(q, key);
    var m := Min(K, |q|);
    var c := Candidates(pslMap, order);
    SortByKeyMembers(q, key);
    SortedPrefixIsLowest(q, key, m);
    forall e, x | e in c && x in pslMap && pslMap[x] <= TARGET_PSL && x !in c
      ensures pslMap[e] <= pslMap[x]
    {
      var i :| 0 <= i < m && sorted[i] == e;
      assert x in q;
      var j :| 0 <= j < |sorted| && sorted[j] == x;
      assert j >= m;
      assert key(e) <= key(x);
    }
  }

  /** A duplicate-free list holds each value at most once as a multiset. */
  lemma {:induction false} DistinctCounts(s: seq<Chromosome>)
    requires NoDuplicates(s)
    ensures forall x :: multiset(s)[x] <= 1
  {
    if s != [] {
      var init, last := s[..|s| - 1], s[|s| - 1];
      assert s == init + [last];
      DistinctCounts(init);
      assert last !in init;
    }
  }

  /** Two equal entries at different places count twice. */
  lemma TwoPlacesCount(b: seq<Chromosome>, i: nat, j: nat)
    requires i < j < |b|
    ensures b[i] == b[j] ==> multiset(b)[b[i]] >= 2
  {
    assert b == b[..j] + b[j..];
    assert b[..j][i] == b[i] && b[j..][0] == b[j];
  }

  /** A permutation of a duplicate-free list is duplicate-free. */
  lemma DistinctPermutation(a: seq<Chromosome>, b: seq<Chromosome>)
    requires NoDuplicates(a) && multiset(a) == multiset(b)
    ensures NoDuplicates(b)
  {
    DistinctCounts(a);
    forall i, j | 0 <= i < j < |b| ensures b[i] != b[j] {
      TwoPlacesCount(b, i, j);
    }
  }

  /** Filtering a duplicate-free order keeps it duplicate-free. */
  lemma {:induction false} QualifyingDistinct(order: seq<Chromosome>, pslMap: map<Chromosome, int>)
    requires NoDuplicates(order)
    ensures NoDuplicates(Qualifying(order, pslMap))
  {
    if order != [] {
      var init := order[..|order| - 1];
      QualifyingDistinct(init, pslMap);
      assert order[|order| - 1] !in init;
    }
  }

  /** A duplicate-free list has as many elements as its set of members. */
  lemma {:induction false} DistinctCardinality(s: seq<Chromosome>)
    requires NoDuplicates(s)
    ensures |set x | x in s| == |s|
  {
    if s != [] {
      var init, last := s[..|s| - 1], s[|s| - 1];
      DistinctCardinality(init);
      assert s == init + [last];
      assert (set x | x in s) == (set x | x in init) + {last};
      assert last !in init;
    }
  }

  /** A list has at least as many elements as its set of members. */
  lemma {:induction false} CardinalityAtMost(s: seq<Chromosome>)
    ensures |set x | x in s| <= |s|
  {
    if s != [] {
      var init, last := s[..|s| - 1], s[|s| - 1];
      CardinalityAtMost(init);
      assert s == init + [last];
      assert (set x | x in s) == (set x | x in init) + {last};
    }
  }

  // ------------------------------------------------------------ the search

  /**
   * A HashMap iteration order: for the keys of the population, each member
   * exactly once and nothing else.  Which order it is stays unspecified.
   */
  ghost predicate EntryOrder(hashOrder: seq<Chromosome> -> seq<Chromosome>)
  {
    forall p: seq<Chromosome> {:trigger hashOrder(p)} ::
      NoDuplicates(hashOrder(p)) && forall x :: x in hashOrder(p) <==> x in p
  }

  /** The distinct members of a scored population whose PSL is at most TARGET_PSL. */
  function QualifyingKeys(pslMap: map<Chromosome, int>): set<Chromosome>
  {
    set x | x in pslMap && pslMap[x] <= TARGET_PSL
  }

  /**
   * What one generation offers the solution set: distinct qualifying
   * members, min(K, number of qualifying members) of them, and none of the
   * qualifying members left out scores lower than one offered.
   */
  lemma GenerationCandidates(population: seq<Chromosome>, hashOrder: seq<Chromosome> -> seq<Chromosome>)
    requires AllOfLength(population, N) && EntryOrder(hashOrder)
    ensures var pslMap := ScoreMap(population);
      var c := Candidates(pslMap, hashOrder(population));
      && NoDuplicates(c)
      && (forall x :: x in c ==> x in population && Psl(x) <= TARGET_PSL)
      && |c| == Min(K, |QualifyingKeys(pslMap)|)
      && forall x, y :: x in c && y in pslMap && pslMap[y] <= TARGET_PSL && y !in c ==> pslMap[x] <= pslMap[y]
  {
    var pslMap := ScoreMap(population);
    var order := hashOrder(population);
    assert NoDuplicates(order) && forall x :: x in order <==> x in population;
    assert forall x :: x in pslMap ==> x in order;
    CandidatesAreLowest(pslMap, order);
    CandidatesDistinct(pslMap, order);
    CandidatesCount(pslMap, order);
  }

  /** Candidates drawn from a duplicate-free order are distinct. */
  lemma CandidatesDistinct(pslMap: map<Chromosome, int>, order: seq<Chromosome>)
    requires NoDuplicates(order)
    ensures NoDuplicates(Candidates(pslMap, order))
  {
    var q := Qualifying(order, pslMap);
    QualifyingDistinct(order, pslMap);
    var sorted := SortByKey(q, PslKey(pslMap));
    SortByKeyPermutation(q, PslKey(pslMap));
    DistinctPermutation(q, sorted);
    assert Candidates(pslMap, order) == sorted[..Min(K, |sorted|)];
  }

  /** An order listing every key once offers min(K, number qualifying) candidates. */
  lemma CandidatesCount(pslMap: map<Chromosome, int>, order: seq<Chromosome>)
    requires NoDuplicates(order) && forall x :: x in pslMap ==> x in order
    ensures |Candidates(pslMap, order)| == Min(K, |QualifyingKeys(pslMap)|)
  {
    CandidatesAreLowest(pslMap, order);
    var q := Qualifying(order, pslMap);
    QualifyingDistinct(order, pslMap);
    DistinctCardinality(q);
    assert (set x | x in q) == QualifyingKeys(pslMap);
  }

  /**
   * A generation in which at least K distinct members qualify ends the
   * search: the solution set then holds at least K sequences.
   */
  lemma StopsWhenKQualify(population: seq<Chromosome>, found: seq<Chromosome>,
                          hashOrder: seq<Chromosome> -> seq<Chromosome>, draws: seq<seq<BreedDraws>>)
    requires |population| > 0 && AllOfLength(population, N) && GenerationDraws(draws) && EntryOrder(hashOrder)
    requires draws != [] && |QualifyingKeys(ScoreMap(population))| >= K
    ensures Run(population, found, hashOrder, draws).stoppedEarly
    ensures |Run(population, found, hashOrder, draws).found| >= K
  {
    var pslMap := ScoreMap(population);
    var c := Candidates(pslMap, hashOrder(population));
    GenerationCandidates(population, hashOrder);
    AddAllDistinctAtLeast(found, c);
  }

  /** Adding distinct candidates leaves at least that many sequences in the set. */
  lemma AddAllDistinctAtLeast(found: seq<Chromosome>, c: seq<Chromosome>)
    requires NoDuplicates(c)
    ensures |AddAll(found, c)| >= |c|
  {
    var added := AddAll(found, c);
    AddAllMembers(found, c);
    DistinctCardinality(c);
    CardinalityAtMost(added);
    SubsetCardinality(set x | x in c, set x | x in added);
  }

  lemma SubsetCardinality(a: set<Chromosome>, b: set<Chromosome>)
    requires a <= b
    ensures |a| <= |b|
  {
    assert b == a + (b - a);
    assert a * (b - a) == {};
  }

  /** pslMap: each member of the population mapped to its calculatePSL score. */
  function ScoreMap(population: seq<Chromosome>): (pslMap: map<Chromosome, int>)
    requires AllOfLength(population, N)
    ensures Scored(population, pslMap)
  {
    map x | x in population :: Psl(x)
  }

  /** Every chromosome in the set is N long and scores at most TARGET_PSL. */
  predicate Solutions(found: seq<Chromosome>)
  {
    forall x :: x in found ==> |x| == N && Psl(x) <= TARGET_PSL
  }

  predicate GenerationDraws(draws: seq<seq<BreedDraws>>)
  {
    forall g :: 0 <= g < |draws| ==> |draws[g]| >= POPULATION_SIZE / 2 && ValidBreedDraws(draws[g])
  }

  lemma GenerationDrawsSuffix(draws: seq<seq<BreedDraws>>, g: nat)
    requires GenerationDraws(draws) && g <= |draws|
    ensures GenerationDraws(draws[g..])
  {
    forall h | 0 <= h < |draws[g..]|
      ensures |draws[g..][h]| >= POPULATION_SIZE / 2 && ValidBreedDraws(draws[g..][h])
    {
      assert draws[g..][h] == draws[g + h];
    }
  }

  /** The solution set and whether the search stopped because it holds K sequences. */
  datatype Outcome = Outcome(found: seq<Chromosome>, stoppedEarly: bool)

  /**
   * The generations of main from a population and a solution set: score,
   * add the candidates, stop once the set holds K, otherwise evolve; one
   * generation per entry of draws.  hashOrder is the HashMap's iteration
   * order over the scored population.
   */
  function Run(population: seq<Chromosome>, found: seq<Chromosome>,
               hashOrder: seq<Chromosome> -> seq<Chromosome>, draws: seq<seq<BreedDraws>>): Outcome
    requires |population| > 0 && AllOfLength(population, N) && GenerationDraws(draws) && EntryOrder(hashOrder)
    decreases |draws|
  {
    if draws == [] then Outcome(found, false)
    else
      var pslMap := ScoreMap(population);
      var added := AddAll(found, Candidates(pslMap, hashOrder(population)));
      if |added| >= K then Outcome(added, true)
      else
        EvolvedShape(population, pslMap, draws[0]);
        GenerationDrawsSuffix(draws, 1);
        Run(Evolved(population, pslMap, draws[0]), added, hashOrder, draws[1..])
  }

  /** One generation's addition keeps the set duplicate-free and made of solutions. */
  lemma AddCandidates(population: seq<Chromosome>, found: seq<Chromosome>, order: seq<Chromosome>)
    requires AllOfLength(population, N) && NoDuplicates(found) && Solutions(found)
    ensures var added := AddAll(found, Candidates(ScoreMap(population), order));
      NoDuplicates(added) && Solutions(added) && |found| <= |added| <= |found| + K && added[..|found|] == found
  {
    var candidates := Candidates(ScoreMap(population), order);
    AddAllMembers(found, candidates);
    AddAllGrows(found, candidates);
  }

  /**
   * The solution set of a run is duplicate-free, made of solutions, and
   * extends the set it started from.
   */
  lemma {:induction false} RunKeepsSolutions(population: seq<Chromosome>, found: seq<Chromosome>,
                                             hashOrder: seq<Chromosome> -> seq<Chromosome>, draws: seq<seq<BreedDraws>>)
    requires |population| > 0 && AllOfLength(population, N) && GenerationDraws(draws) && EntryOrder(hashOrder)
    requires NoDuplicates(found) && Solutions(found)
    ensures var o := Run(population, found, hashOrder, draws);
      NoDuplicates(o.found) && Solutions(o.found) && |found| <= |o.found| && o.found[..|found|] == found
    decreases |draws|
  {
    if draws != [] {
      var pslMap := ScoreMap(population);
      var order := hashOrder(population);
      var added := AddAll(found, Candidates(pslMap, order));
      AddCandidates(population, found, order);
      if |added| < K {
        EvolvedShape(population, pslMap, draws[0]);
        GenerationDrawsSuffix(draws, 1);
        var next := Evolved(population, pslMap, draws[0]);
        RunKeepsSolutions(next, added, hashOrder, draws[1..]);
        var o := Run(next, added, hashOrder, draws[1..]);
        assert Run(population, found, hashOrder, draws) == o;
        assert o.found[..|found|] == o.found[..|added|][..|found|];
      }
    }
  }

  /**
   * A run started short of K stops early exactly when the set reaches K,
   * and the set then holds at most 2K - 1 sequences.
   */
  lemma {:induction false} RunStopsAtK(population: seq<Chromosome>, found: seq<Chromosome>,
                                       hashOrder: seq<Chromosome> -> seq<Chromosome>, draws: seq<seq<BreedDraws>>)
    requires |population| > 0 && AllOfLength(population, N) && GenerationDraws(draws) && EntryOrder(hashOrder)
    requires |found| < K
    ensures var o := Run(population, found, hashOrder, draws);
      (o.stoppedEarly <==> |o.found| >= K) && |o.found| <= 2 * K - 1
    decreases |draws|
  {
    if draws != [] {
      var pslMap := ScoreMap(population);
      var order := hashOrder(population);
      var added := AddAll(found, Candidates(pslMap, order));
      AddAllGrows(found, Candidates(pslMap, order));
      if |added| < K {
        EvolvedShape(population, pslMap, draws[0]);
        GenerationDrawsSuffix(draws, 1);
        var next := Evolved(population, pslMap, draws[0]);
        RunStopsAtK(next, added, hashOrder, draws[1..]);
        assert Run(population, found, hashOrder, draws) == Run(next, added, hashOrder, draws[1..]);
      }
    }
  }

  /** Scores the population into a map, one calculatePSL call per member. */
  method ScorePopulation(population: seq<Chromosome>) returns (pslMap: map<Chromosome, int>)
    requires AllOfLength(population, N)
    ensures pslMap == ScoreMap(population)
  {
    pslMap := map[];
    for i := 0 to |population|
      invariant pslMap == ScoreMap(population[..i])
    {
      var psl := CalculatePSL(population[i]);
      assert population[..i + 1] == population[..i] + [population[i]];
      pslMap := pslMap[population[i] := psl];
    }
    assert population[..|population|] == population;
  }

  /** The LinkedHashSet additions of one generation. */
  method AddToSet(found: seq<Chromosome>, candidates: seq<Chromosome>) returns (added: seq<Chromosome>)
    ensures added == AddAll(found, candidates)
  {
    added := found;
    for j := 0 to |candidates|
      invariant added == AddAll(found, candidates[..j])
    {
      assert candidates[..j + 1][..j] == candidates[..j];
      if candidates[j] !in added {
        added := added + [candidates[j]];
      }
    }
    assert candidates[..|candidates|] == candidates;
  }

  /**
   * One generation of main's loop: score the population, add the
   * candidates to the solution set, and, unless the set now holds K,
   * evolve the population with this generation's draws.
   */
  method Generation(population: seq<Chromosome>, found: seq<Chromosome>,
                    hashOrder: seq<Chromosome> -> seq<Chromosome>, draws: seq<seq<BreedDraws>>)
    returns (next: seq<Chromosome>, added: seq<Chromosome>, stop: bool)
    requires |population| > 0 && AllOfLength(population, N) && GenerationDraws(draws) && draws != []
    requires EntryOrder(hashOrder)
    ensures stop <==> |added| >= K
    ensures |next| > 0 && AllOfLength(next, N)
    ensures Run(population, found, hashOrder, draws) ==
      if stop then Outcome(added, true) else Run(next, added, hashOrder, draws[1..])
  {
    var pslMap := ScorePopulation(population);
    var candidates := Candidates(pslMap, hashOrder(population));
    added := AddToSet(found, candidates);
    stop := |added| >= K;
    if stop {
      next := population;
    } else {
      EvolvedShape(population, pslMap, draws[0]);
      next := EvolvePopulation(population, pslMap, draws[0]);
    }
  }

  /**
   * main: up to MAX_GENERATIONS generations, leaving the loop as soon as
   * the solution set holds K sequences.  The result is the solution set
   * and whether the search stopped early.
   */
  method Search(initial: seq<Chromosome>, hashOrder: seq<Chromosome> -> seq<Chromosome>, draws: seq<seq<BreedDraws>>)
    returns (found: seq<Chromosome>, stoppedEarly: bool)
    requires |initial| > 0 && AllOfLength(initial, N) && EntryOrder(hashOrder)
    requires |draws| == MAX_GENERATIONS && GenerationDraws(draws)
    ensures Outcome(found, stoppedEarly) == Run(initial, [], hashOrder, draws)
    ensures stoppedEarly <==> |found| >= K
    ensures |found| <= 2 * K - 1 && NoDuplicates(found) && Solutions(found)
  {
    var population := initial;
    found := [];
    stoppedEarly := false;
    assert draws[0..] == draws;
    for generation := 0 to MAX_GENERATIONS
      invariant Searching(initial, hashOrder, draws, generation, population, found)
      invariant !stoppedEarly
    {
      var stop;
      population, found, stop := SearchStep(initial, hashOrder, draws, generation, population, found);
      if stop {
        stoppedEarly := true;
        break;
      }
    }
    if !stoppedEarly {
      assert draws[MAX_GENERATIONS..] == [];
    }
    SearchOutcome(initial, hashOrder, draws, found, stoppedEarly);
  }

  /**
   * The state of main's loop before generation g: what is left of the run
   * from here is what the whole run does.
   */
  ghost predicate Searching(initial: seq<Chromosome>, hashOrder: seq<Chromosome> -> seq<Chromosome>,
                            draws: seq<seq<BreedDraws>>, g: nat, population: seq<Chromosome>, found: seq<Chromosome>)
  {
    |initial| > 0 && AllOfLength(initial, N) && GenerationDraws(draws) && g <= |draws| && EntryOrder(hashOrder) &&
    |population| > 0 && AllOfLength(population, N) && GenerationDraws(draws[g..]) &&
    Run(initial, [], hashOrder, draws) == Run(population, found, hashOrder, draws[g..])
  }

  /** One pass of main's loop, and where it leaves the run. */
  method SearchStep(initial: seq<Chromosome>, hashOrder: seq<Chromosome> -> seq<Chromosome>,
                    draws: seq<seq<BreedDraws>>, g: nat, population: seq<Chromosome>, found: seq<Chromosome>)
    returns (next: seq<Chromosome>, added: seq<Chromosome>, stop: bool)
    requires Searching(initial, hashOrder, draws, g, population, found) && g < |draws|
    ensures stop ==> Outcome(added, true) == Run(initial, [], hashOrder, draws)
    ensures !stop ==> Searching(initial, hashOrder, draws, g + 1, next, added)
  {
    next, added, stop := Generation(population, found, hashOrder, draws[g..]);
    assert draws[g..][1..] == draws[g + 1..];
    GenerationDrawsSuffix(draws, g + 1);
  }

  /** What a whole run promises about its solution set and its early stop. */
  lemma SearchOutcome(initial: seq<Chromosome>, hashOrder: seq<Chromosome> -> seq<Chromosome>,
                      draws: seq<seq<BreedDraws>>, found: seq<Chromosome>, stoppedEarly: bool)
    requires |initial| > 0 && AllOfLength(initial, N) && GenerationDraws(draws) && EntryOrder(hashOrder)
    requires Outcome(found, stoppedEarly) == Run(initial, [], hashOrder, draws)
    ensures stoppedEarly <==> |found| >= K
    ensures |found| <= 2 * K - 1 && NoDuplicates(found) && Solutions(found)
  {
    RunKeepsSolutions(initial, [], hashOrder, draws);
    RunStopsAtK(initial, [], hashOrder, draws);
  }

  /** What main prints at the end: a failure line, or each solution with its score. */
  datatype Report = NotFound | Found(lines: seq<(Chromosome, int)>)

  function MakeReport(found: seq<Chromosome>): (r: Report)
    requires Solutions(found)
    ensures r.NotFound? <==> |found| == 0
    ensures r.Found? ==>
      |r.lines| == |found| &&
      forall i :: 0 <= i < |found| ==> r.lines[i].0 == found[i] && 0 <= r.lines[i].1 <= TARGET_PSL
  {
    if |found| == 0 then NotFound
    else Found(seq(|found|, i requires 0 <= i < |found| => (found[i], Psl(found[i]))))
  }
}
