# Genetic algorithms over bit strings

This project models three small Java programs. Each one evolves a population of
`'0'`/`'1'` strings. Each generation it scores the population, selects parents,
applies one-point crossover and bit-flip mutation, and builds the next
population.

- `GeneticAlgorithm` minimises a real function of `x`. Each chromosome holds 20
  Gray-coded bits that decode to `x`. It uses roulette-wheel selection.
  - Its second routine, `findBinarySequence`, searches 35-bit sequences by peak
    autocorrelation sidelobe. It sorts the population in place and pairs
    neighbours.
- `GeneticAlgorithmPSL` searches 35-bit sequences whose peak sidelobe level
  (PSL) is at most 4.
  - It keeps 5 elites and chooses parents by roulette with weight
    `1 / (1 + PSL)`.
  - Qualifying sequences go into an insertion-ordered set. The search stops
    once the set holds 3 of them, or after 1000 generations.
- `GeneticAlgorithmMin` is the minimisation program again, with these
  differences:
  - it sorts by the objective and pairs neighbours `(i, i + 1)`;
  - mutation is a separate pass that flips one random bit;
  - an integer shift-XOR loop decodes the Gray code.

Every random draw is a parameter of the model: coins, cut points, mutation
points and roulette values. The floating-point objective becomes an integer
score function, also a parameter. Each method walks the same loop as the
program. It is proved equal to a function, and that function's properties are
proved as lemmas.

Modules:

- `Bits`: bit strings, binary values, `Integer.parseInt(s, 2)`, Hamming distance.
- `Sidelobe`: aperiodic autocorrelation and the peak sidelobe.
- `Ranking`: a sort with the properties of `List.sort` and `Stream.sorted`
  (ascending, a permutation, stable), and `Collections.min`.
- `Roulette`: the cumulative-weight walk.
- `OnePoint`: substring crossover.
- `GeneticAlgorithm`, `GeneticAlgorithmPSL` and `GeneticAlgorithmMin`: one
  module per program.

In some places the code does less than its own names and comments say. The
model follows the code:

- `GeneticAlgorithmMin.decodeGray` (`GeneticAlgorithmMin.java:79-86`) is named
  as a Gray decoder. Its shift-XOR loop is not the inverse Gray transform that
  `GeneticAlgorithm.grayToBinary` computes (see Findings).
  `GeneticAlgorithmMin.DecodeGray` models the loop as written.
- `GeneticAlgorithm.evolvePopulation` reduces its result to the original size
  (comment at `GeneticAlgorithm.java:90`). `GeneticAlgorithmPSL.evolvePopulation`
  has no such step. It adds pairs after 5 elites until the size reaches at least
  70, so it returns 71 members. `GeneticAlgorithmPSL.EvolvePopulation` states
  this.
- `findBinarySequence` labels its output the K best sequences (comment at
  `GeneticAlgorithm.java:232`). It actually prints the first 3 members of the
  final population, which is the unsorted offspring.
  `GeneticAlgorithm.FindBinarySequence` states what is printed, and
  `GeneticAlgorithm.FirstKAreNotTheBest` shows a case where those are not the
  best.
- `GeneticAlgorithm.mutate` only visits the first 20 positions, even on
  35-character sequences.
- `findBinarySequence` declares a local `MUTATION_RATE = 0.2`
  (`GeneticAlgorithm.java:169`), but nothing reads it. The `mutate` it calls
  uses the class constant 0.1, and so does the model. Its local `PSL = 3` is
  unused as well.

## Model

| member | source | states |
|---|---|---|
| Bits.BinaryValueBound | src/main/java/kg/megalab/ga2/GeneticAlgorithm.java:152 | the value of an n-bit string is below 2^n, so parseInt accepts it when n ≤ 31 |
| Bits.CountOnesConcat | src/main/java/kg/megalab/ga2/GeneticAlgorithm.java:121-126 | the count of '1' bits is additive over concatenation, the step used for crossover conservation |
| GeneticAlgorithm.GrayToBinary | src/main/java/kg/megalab/ga2/GeneticAlgorithm.java:157-164 | the decoded string keeps the length and the first bit, and bit i is the XOR of Gray bits 0..i (prefix parity) |
| GeneticAlgorithm.GrayDecodeThenEncode | src/main/java/kg/megalab/ga2/GeneticAlgorithm.java:157-164 | re-encoding the decoded string gives back the Gray string |
| GeneticAlgorithm.GrayEncodeThenDecode | src/main/java/kg/megalab/ga2/GeneticAlgorithm.java:157-164 | decoding the Gray encoding of any bit string gives back that string; with the previous row, decoding is a bijection |
| GeneticAlgorithm.DecodeGrayIndex | src/main/java/kg/megalab/ga2/GeneticAlgorithm.java:151-152 | the parsed integer is parseInt of the decoded string: present for at most 31 bits, and for 20 bits an index in [0, 2^20 - 1] |
| GeneticAlgorithm.GrayIndexExtremes | src/main/java/kg/megalab/ga2/GeneticAlgorithm.java:151-164 | 20 zeros decode to index 0, and '1' followed by 19 zeros decodes to 2^20 - 1, the top of the interval |
| GeneticAlgorithm.GrayIndexOfOnesIsNotTop | src/main/java/kg/megalab/ga2/GeneticAlgorithm.java:157-164 | an all-ones Gray string of even length decodes to an even index, so not to the top index |
| GeneticAlgorithm.Crossover | src/main/java/kg/megalab/ga2/GeneticAlgorithm.java:121-126 | the children swap lengths; child 1 is parent 1 before the cut and parent 2 from the cut on, child 2 the converse; cut 0 swaps the parents |
| OnePoint.SpliceExchanges | src/main/java/kg/megalab/ga2/GeneticAlgorithm.java:123-124 | at every position the two children hold the parents' two bits, kept before the cut and exchanged after it |
| OnePoint.SplicePreservesOnes | src/main/java/kg/megalab/ga2/GeneticAlgorithm.java:123-124 | crossover keeps the total number of '1' bits of the pair |
| GeneticAlgorithm.Mutate | src/main/java/kg/megalab/ga2/GeneticAlgorithm.java:129-138 | bit j of the first 20 flips exactly when draw j is below 0.1; bits from 20 on never change; no firing draw means no change; all firing means all first 20 bits flip |
| GeneticAlgorithm.MutationDistance | src/main/java/kg/megalab/ga2/GeneticAlgorithm.java:129-138 | the Hamming distance between a chromosome and its mutation equals the number of firing draws |
| GeneticAlgorithm.Breed | src/main/java/kg/megalab/ga2/GeneticAlgorithm.java:77-87 | a coin at or above the crossover rate passes the parents through unchanged; equal-length parents give children of that length |
| GeneticAlgorithm.BreedKeepsTail | src/main/java/kg/megalab/ga2/GeneticAlgorithm.java:77-87 | from position 20 on, each child pair holds the parents' bits at every position, whatever the draws |
| GeneticAlgorithm.PairUpUsesNeighbours | src/main/java/kg/megalab/ga2/GeneticAlgorithm.java:211-225 | slots 2i and 2i + 1 of the new population are the bred children of parents i and i + 1 |
| GeneticAlgorithm.PairUpKeepsLength | src/main/java/kg/megalab/ga2/GeneticAlgorithm.java:211-225 | parents all of one length give children all of that length |
| GeneticAlgorithm.SpinWheel | src/main/java/kg/megalab/ga2/GeneticAlgorithm.java:106-115 | one spin stops where the cumulative-weight walk first reaches the drawn value, or nowhere |
| Roulette.SpinIsFirstReaching | src/main/java/kg/megalab/ga2/GeneticAlgorithm.java:108-115 | a spin stops at the first position whose cumulative weight reaches the drawn value, and stops nowhere exactly when no position reaches it |
| Roulette.PositiveWeightsAlwaysReach | src/main/java/kg/megalab/ga2/GeneticAlgorithm.java:104-115 | with positive weights, a draw in [0, 1) times the total weight is always reached |
| GeneticAlgorithm.RouletteWheelSelection | src/main/java/kg/megalab/ga2/GeneticAlgorithm.java:99-118 | the selected list is the spins in draw order; it has no more members than the population, and each is a member of it |
| GeneticAlgorithm.PicksFull | src/main/java/kg/megalab/ga2/GeneticAlgorithm.java:99-118 | with positive weights and draws in [0, 1), every spin selects a member, so the selection is as long as the draws, one per population member |
| GeneticAlgorithm.PicksCanFallShort | src/main/java/kg/megalab/ga2/GeneticAlgorithm.java:99-118 | with a negative weight a spin can select nobody, and the selection is shorter than the population |
| GeneticAlgorithm.BreedPair | src/main/java/kg/megalab/ga2/GeneticAlgorithm.java:77-87 | the two children of one loop iteration are those of Breed |
| GeneticAlgorithm.PairAndBreed | src/main/java/kg/megalab/ga2/GeneticAlgorithm.java:74-88 | the pairing loop builds exactly PairUp of the selected list |
| GeneticAlgorithm.EvolvePopulation | src/main/java/kg/megalab/ga2/GeneticAlgorithm.java:67-96 | the new population is the bred pairs of the roulette selection, cut to 50; from at most 50 members it has 2 * (selected / 2) members, never more than the old population |
| GeneticAlgorithm.FindBest | src/main/java/kg/megalab/ga2/GeneticAlgorithm.java:141-143 | the result is a member of least score, and no earlier member scores as low |
| Ranking.FirstMin | src/main/java/kg/megalab/ga2/GeneticAlgorithmMin.java:88-90 | Collections.min returns the first member of least score, at a reported index |
| Ranking.SiftDown | src/main/java/kg/megalab/ga2/GeneticAlgorithmMin.java:40 | one insertion step inserts a[i] stably into the sorted prefix and leaves the rest of the list alone |
| Ranking.SortInPlace | src/main/java/kg/megalab/ga2/GeneticAlgorithmMin.java:40 | sorting the list in place leaves exactly SortByKey of the old contents, which is ascending, a permutation and stable |
| Ranking.SortByKeySorted | src/main/java/kg/megalab/ga2/GeneticAlgorithm.java:185 | the sorted order is ascending by score |
| Ranking.SortByKeyPermutation | src/main/java/kg/megalab/ga2/GeneticAlgorithm.java:185 | the sorted order is a permutation of the list |
| Ranking.SortByKeyStable | src/main/java/kg/megalab/ga2/GeneticAlgorithm.java:185 | the sort is stable: for every score value, the members with that score keep their input order |
| Ranking.InsertWithKey | src/main/java/kg/megalab/ga2/GeneticAlgorithmMin.java:40 | one insertion step puts the new element behind every element with its score |
| Ranking.SortByKeyMembers | src/main/java/kg/megalab/ga2/GeneticAlgorithm.java:185 | sorting keeps exactly the members of the list |
| Ranking.SortedPrefixIsLowest | src/main/java/kg/megalab/ga2/GeneticAlgorithmMin.java:40-43 | after sorting, nothing past the first m members scores below any of them |
| GeneticAlgorithm.SequenceGeneration | src/main/java/kg/megalab/ga2/GeneticAlgorithm.java:185-226 | the list is sorted in place by peak sidelobe, and the next population pairs neighbours (i, i + 1) of the sorted list for i < 35 |
| GeneticAlgorithm.NextSequencePopulationShape | src/main/java/kg/megalab/ga2/GeneticAlgorithm.java:211-226 | each generation of the sequence search gives 70 sequences of 35 bits |
| GeneticAlgorithm.FindBinarySequence | src/main/java/kg/megalab/ga2/GeneticAlgorithm.java:167-238 | after 100 generations the printed sequences are the first 3 of the final, unsorted population |
| GeneticAlgorithm.FirstKAreNotTheBest | src/main/java/kg/megalab/ga2/GeneticAlgorithm.java:233-237 | for a final population of 3 constant sequences and one lone-one sequence, every printed sequence has a higher peak sidelobe than the fourth |
| GeneticAlgorithm.Autocorrelation | src/main/java/kg/megalab/ga2/GeneticAlgorithm.java:241-251 | the result is the peak sidelobe, the largest absolute correlation over shifts 1 to length - 1; it lies in [0, length - 1] |
| GeneticAlgorithm.ShiftSum | src/main/java/kg/megalab/ga2/GeneticAlgorithm.java:244-247 | the inner loop sums +1 for agreeing and -1 for differing bits at distance shift |
| GeneticAlgorithm.Barker7 | src/main/java/kg/megalab/ga2/GeneticAlgorithm.java:241-251 | the length-7 Barker sequence 1110010 has peak sidelobe 1 |
| Sidelobe.PeakSidelobeRange | src/main/java/kg/megalab/ga2/GeneticAlgorithm.java:241-251 | the peak sidelobe of a non-empty sequence lies in [0, length - 1] |
| Sidelobe.PeakSidelobeConstant | src/main/java/kg/megalab/ga2/GeneticAlgorithm.java:241-251 | a constant sequence has the worst peak sidelobe, length - 1 |
| Sidelobe.PeakSidelobeReverse | src/main/java/kg/megalab/ga2/GeneticAlgorithm.java:241-251 | reversing a sequence keeps its peak sidelobe |
| Sidelobe.CorrelationReverse | src/main/java/kg/megalab/ga2/GeneticAlgorithm.java:244-247 | reversing a sequence keeps its correlation at every shift |
| Sidelobe.LoneLeadingOne | src/main/java/kg/megalab/ga2/GeneticAlgorithm.java:241-251 | '1' followed by m zeros has a peak sidelobe of at most m - 1, below the m of a constant sequence of the same length |
| GeneticAlgorithmPSL.CalculatePSL | src/main/java/kg/megalab/ga2/GeneticAlgorithmPSL.java:128-143 | the result is the PSL of the first 35 characters, read as '1' or not '1'; it lies in [0, 34] |
| GeneticAlgorithmPSL.ShiftCorrelation | src/main/java/kg/megalab/ga2/GeneticAlgorithmPSL.java:136-139 | the ±1 product sum at one shift is the autocorrelation of the binarised sequence at that shift |
| GeneticAlgorithmPSL.PslIsPeakSidelobe | src/main/java/kg/megalab/ga2/GeneticAlgorithmPSL.java:128-143 | on 35-bit strings calculatePSL and findBinarySequence's autocorrelation agree |
| GeneticAlgorithmPSL.PslOfConstant | src/main/java/kg/megalab/ga2/GeneticAlgorithmPSL.java:128-143 | a constant sequence of 35 has PSL 34, the largest possible |
| GeneticAlgorithmPSL.PslReverse | src/main/java/kg/megalab/ga2/GeneticAlgorithmPSL.java:128-143 | reversing a sequence keeps its PSL |
| GeneticAlgorithmPSL.Crossover | src/main/java/kg/megalab/ga2/GeneticAlgorithmPSL.java:110-115 | the cut is in [1, 34], so each child keeps its own parent's first bit; the children swap lengths |
| GeneticAlgorithmPSL.CrossoverExchanges | src/main/java/kg/megalab/ga2/GeneticAlgorithmPSL.java:110-115 | at every position the children hold the parents' two bits |
| GeneticAlgorithmPSL.Mutate | src/main/java/kg/megalab/ga2/GeneticAlgorithmPSL.java:118-125 | a gate at or above 0.2 returns the sequence unchanged; otherwise exactly the drawn position flips and the rest is kept |
| GeneticAlgorithmPSL.MutationFlipsOne | src/main/java/kg/megalab/ga2/GeneticAlgorithmPSL.java:118-125 | the mutation is at Hamming distance 1 when the gate fires and 0 otherwise |
| GeneticAlgorithmPSL.SelectParent | src/main/java/kg/megalab/ga2/GeneticAlgorithmPSL.java:96-107 | the parent is the first member whose cumulative weight 1/(1+PSL) reaches the draw, else the last member; it is always a member |
| GeneticAlgorithmPSL.ChoiceIsFirstReaching | src/main/java/kg/megalab/ga2/GeneticAlgorithmPSL.java:96-107 | when some position reaches the drawn value, the chosen parent is the member at the first such position |
| GeneticAlgorithmPSL.FallbackUnused | src/main/java/kg/megalab/ga2/GeneticAlgorithmPSL.java:96-107 | with exact weights a draw in [0, 1) times the total is always reached, so the fallback is never taken |
| GeneticAlgorithmPSL.ElitesAreLowest | src/main/java/kg/megalab/ga2/GeneticAlgorithmPSL.java:66-70 | the elites are a sub-multiset of the population, and no other member has a lower PSL than any elite |
| GeneticAlgorithmPSL.BreedRound | src/main/java/kg/megalab/ga2/GeneticAlgorithmPSL.java:79-89 | one loop round adds the two mutated children, or the two mutated parents when the coin is at or above 0.8 |
| GeneticAlgorithmPSL.BredHasLengthN | src/main/java/kg/megalab/ga2/GeneticAlgorithmPSL.java:78-90 | every bred sequence has 35 bits |
| GeneticAlgorithmPSL.AppendRound | src/main/java/kg/megalab/ga2/GeneticAlgorithmPSL.java:78-90 | each round extends the new population by exactly its two children |
| GeneticAlgorithmPSL.Fill | src/main/java/kg/megalab/ga2/GeneticAlgorithmPSL.java:78-90 | the fill loop appends to the elites the children of as many rounds as it takes to reach 70 |
| GeneticAlgorithmPSL.EvolvePopulation | src/main/java/kg/megalab/ga2/GeneticAlgorithmPSL.java:63-93 | the new population has 70 or 71 sequences of 35 bits, and 71 whenever the old one has at least 5 members |
| GeneticAlgorithmPSL.EvolvedShape | src/main/java/kg/megalab/ga2/GeneticAlgorithmPSL.java:63-93 | the same size and length facts hold of the specification of one evolution step |
| GeneticAlgorithmPSL.ToBinaryStringValue | src/main/java/kg/megalab/ga2/GeneticAlgorithmPSL.java:57 | Integer.toBinaryString(n) reads back as n |
| GeneticAlgorithmPSL.InitialChromosomeValue | src/main/java/kg/megalab/ga2/GeneticAlgorithmPSL.java:57-58 | padding with zeros to 35 keeps the value n |
| GeneticAlgorithmPSL.InitialPopulationIsTwoStrings | src/main/java/kg/megalab/ga2/GeneticAlgorithmPSL.java:54-60 | every initial member is 34 zeros followed by the drawn bit, so only two distinct strings occur |
| GeneticAlgorithmPSL.AddAllGrows | src/main/java/kg/megalab/ga2/GeneticAlgorithmPSL.java:31 | adding to the insertion-ordered set keeps the old members in order in front and adds at most the candidates |
| GeneticAlgorithmPSL.AddAllMembers | src/main/java/kg/megalab/ga2/GeneticAlgorithmPSL.java:31 | the set afterwards holds exactly the old members and the candidates, and stays duplicate-free when it was |
| GeneticAlgorithmPSL.AddAllFresh | src/main/java/kg/megalab/ga2/GeneticAlgorithmPSL.java:31 | distinct candidates not yet in the set all get added |
| GeneticAlgorithmPSL.SolutionSetCanReachTwoKMinusOne | src/main/java/kg/megalab/ga2/GeneticAlgorithmPSL.java:27-33 | a set of 2 plus 3 fresh candidates reaches 5, so the size check at the break can overshoot 3 |
| GeneticAlgorithmPSL.Qualifying | src/main/java/kg/megalab/ga2/GeneticAlgorithmPSL.java:27-28 | the filtered entries are exactly the scored sequences with PSL at most 4 |
| GeneticAlgorithmPSL.Candidates | src/main/java/kg/megalab/ga2/GeneticAlgorithmPSL.java:27-31 | at most 3 candidates, each scored with PSL at most 4 |
| GeneticAlgorithmPSL.CandidatesAreLowest | src/main/java/kg/megalab/ga2/GeneticAlgorithmPSL.java:27-31 | no qualifying sequence left out has a lower PSL than a candidate, and there are min(3, number qualifying) candidates |
| GeneticAlgorithmPSL.ScorePopulation | src/main/java/kg/megalab/ga2/GeneticAlgorithmPSL.java:21-24 | the map gives each population member its calculatePSL |
| GeneticAlgorithmPSL.AddToSet | src/main/java/kg/megalab/ga2/GeneticAlgorithmPSL.java:31 | the forEach adds the candidates one by one to the set |
| GeneticAlgorithmPSL.CandidatesDistinct | src/main/java/kg/megalab/ga2/GeneticAlgorithmPSL.java:27-31 | entries of a map, taken in a duplicate-free order, give distinct candidates |
| GeneticAlgorithmPSL.CandidatesCount | src/main/java/kg/megalab/ga2/GeneticAlgorithmPSL.java:27-31 | an order listing every key once offers min(3, number of qualifying keys) candidates |
| GeneticAlgorithmPSL.GenerationCandidates | src/main/java/kg/megalab/ga2/GeneticAlgorithmPSL.java:21-31 | with any HashMap entry order, a generation offers distinct population members of PSL at most 4, min(3, number qualifying) of them, and no qualifying member left out scores lower |
| GeneticAlgorithmPSL.StopsWhenKQualify | src/main/java/kg/megalab/ga2/GeneticAlgorithmPSL.java:21-33 | a generation in which at least 3 distinct members qualify ends the search with at least 3 solutions |
| GeneticAlgorithmPSL.AddAllDistinctAtLeast | src/main/java/kg/megalab/ga2/GeneticAlgorithmPSL.java:31 | adding distinct candidates leaves at least that many sequences in the set |
| GeneticAlgorithmPSL.AddCandidates | src/main/java/kg/megalab/ga2/GeneticAlgorithmPSL.java:27-31 | one accumulation keeps the set duplicate-free and qualifying, keeps its old prefix, and grows it by at most 3 |
| GeneticAlgorithmPSL.Generation | src/main/java/kg/megalab/ga2/GeneticAlgorithmPSL.java:19-36 | one generation stops exactly when the set holds 3 or more; otherwise it continues with a non-empty population of 35-bit sequences |
| GeneticAlgorithmPSL.RunKeepsSolutions | src/main/java/kg/megalab/ga2/GeneticAlgorithmPSL.java:19-42 | over the whole loop the set stays duplicate-free, holds only sequences of PSL at most 4, and only grows |
| GeneticAlgorithmPSL.RunStopsAtK | src/main/java/kg/megalab/ga2/GeneticAlgorithmPSL.java:19-42 | the loop breaks early exactly when the set reaches 3, and the set never exceeds 5 |
| GeneticAlgorithmPSL.Search | src/main/java/kg/megalab/ga2/GeneticAlgorithmPSL.java:15-42 | the main loop's result is the search outcome; the set is distinct, qualifying and of size at most 5, and holds 3 or more exactly when the loop stopped early |
| GeneticAlgorithmPSL.SearchStep | src/main/java/kg/megalab/ga2/GeneticAlgorithmPSL.java:19-36 | one iteration either ends with the search outcome or keeps the loop invariant one generation further |
| GeneticAlgorithmPSL.SearchOutcome | src/main/java/kg/megalab/ga2/GeneticAlgorithmPSL.java:19-42 | the search outcome stops early iff it has 3 or more solutions, and has at most 5, all distinct and qualifying |
| GeneticAlgorithmPSL.MakeReport | src/main/java/kg/megalab/ga2/GeneticAlgorithmPSL.java:45-50 | the report says not found exactly when the set is empty; otherwise one line per solution in set order, with PSL in [0, 4] |
| GeneticAlgorithmMin.BitXorBound | src/main/java/kg/megalab/ga2/GeneticAlgorithmMin.java:83 | XOR of two n-bit values stays below 2^n |
| GeneticAlgorithmMin.FoldIsFiveShifts | src/main/java/kg/megalab/ga2/GeneticAlgorithmMin.java:82-84 | the loop XORs the parsed value with its shifts by 1, 2, 4, 8 and 16 |
| GeneticAlgorithmMin.DecodeGray | src/main/java/kg/megalab/ga2/GeneticAlgorithmMin.java:79-84 | the index is missing exactly when parseInt fails; otherwise it is the shift fold of the parsed value, and for 20 bits it is present and below 2^20 |
| GeneticAlgorithmMin.TwentyBitsParse | src/main/java/kg/megalab/ga2/GeneticAlgorithmMin.java:80 | parseInt always accepts a 20-bit chromosome and returns a value below 2^20 |
| GeneticAlgorithmMin.FoldAgreesOnThreeBits | src/main/java/kg/megalab/ga2/GeneticAlgorithmMin.java:79-84 | on 3-bit strings the shift fold agrees with prefix-XOR decoding |
| GeneticAlgorithmMin.FoldAgreesBelowEight | src/main/java/kg/megalab/ga2/GeneticAlgorithmMin.java:79-84 | on 20-bit chromosomes of value below 8 the shift fold agrees with prefix-XOR decoding |
| GeneticAlgorithmMin.FoldOfSmallValues | src/main/java/kg/megalab/ga2/GeneticAlgorithmMin.java:82-84 | the fold of 0 to 7 is 0, 1, 3, 2, 7, 6, 4, 5, the Gray decoding of those values |
| GeneticAlgorithmMin.FoldBreaksRoundTrip | src/main/java/kg/megalab/ga2/GeneticAlgorithmMin.java:82-84 | the Gray code of 15 is 16 zeros then 1000 (value 8); the loop decodes it to 14, and prefix-XOR decoding gives 15 |
| GeneticAlgorithmMin.DecodeGrayCorrected | src/main/java/kg/megalab/ga2/GeneticAlgorithmMin.java:79-84 | on 20 bits the corrected decoder returns the prefix-XOR index, below 2^20 |
| GeneticAlgorithmMin.CorrectedDecodingRoundTrip | src/main/java/kg/megalab/ga2/GeneticAlgorithmMin.java:79-84 | the corrected decoder maps the Gray code of every 20-bit value back to that value |
| GeneticAlgorithmMin.Crossover | src/main/java/kg/megalab/ga2/GeneticAlgorithmMin.java:61-66 | the children swap lengths, cut 0 swaps the parents, and bit strings stay bit strings |
| GeneticAlgorithmMin.CrossoverExchanges | src/main/java/kg/megalab/ga2/GeneticAlgorithmMin.java:61-66 | at every position the children hold the parents' two bits |
| GeneticAlgorithmMin.Flipped | src/main/java/kg/megalab/ga2/GeneticAlgorithmMin.java:68-73 | flipping one position changes that bit and nothing else (Hamming distance 1) |
| GeneticAlgorithmMin.FlipTwice | src/main/java/kg/megalab/ga2/GeneticAlgorithmMin.java:68-73 | flipping the same position twice restores the chromosome |
| GeneticAlgorithmMin.Mutate | src/main/java/kg/megalab/ga2/GeneticAlgorithmMin.java:68-73 | the char-array update is the one-bit flip at the drawn index |
| GeneticAlgorithmMin.Children | src/main/java/kg/megalab/ga2/GeneticAlgorithmMin.java:44-51 | a coin at or above 0.85 passes the parents through; the children are 20-bit strings |
| GeneticAlgorithmMin.ChildrenExchange | src/main/java/kg/megalab/ga2/GeneticAlgorithmMin.java:44-51 | at each of the 20 positions the children hold the parents' two bits |
| GeneticAlgorithmMin.Pairing | src/main/java/kg/megalab/ga2/GeneticAlgorithmMin.java:41-52 | the pairing loop gives two well-formed children per pair |
| GeneticAlgorithmMin.PairingUsesNeighbours | src/main/java/kg/megalab/ga2/GeneticAlgorithmMin.java:41-52 | slots 2i and 2i + 1 hold the children of the overlapping neighbours i and i + 1 |
| GeneticAlgorithmMin.PairingIgnoresTheRest | src/main/java/kg/megalab/ga2/GeneticAlgorithmMin.java:41-43 | only the first 26 sorted members can become parents |
| GeneticAlgorithmMin.BreedPairs | src/main/java/kg/megalab/ga2/GeneticAlgorithmMin.java:41-52 | the loop over the sorted list builds exactly the pairing of its first 26 members |
| GeneticAlgorithmMin.MutationPass | src/main/java/kg/megalab/ga2/GeneticAlgorithmMin.java:53-57 | the pass keeps the size; each slot is unchanged when its gate is at or above 0.1, and otherwise at Hamming distance 1 |
| GeneticAlgorithmMin.MutationLoop | src/main/java/kg/megalab/ga2/GeneticAlgorithmMin.java:53-57 | the in-place mutation loop computes the mutation pass |
| GeneticAlgorithmMin.NextPopulation | src/main/java/kg/megalab/ga2/GeneticAlgorithmMin.java:38-59 | each generation gives exactly 50 well-formed chromosomes |
| GeneticAlgorithmMin.ParentsAreTheBest | src/main/java/kg/megalab/ga2/GeneticAlgorithmMin.java:38-59 | the next population is bred from the 26 lowest-scoring members only; none of the rest scores below them |
| GeneticAlgorithmMin.Evolve | src/main/java/kg/megalab/ga2/GeneticAlgorithmMin.java:38-59 | the caller's list is left stably sorted by score, and the result is the next population of the old list |
| GeneticAlgorithmMin.Minimize | src/main/java/kg/megalab/ga2/GeneticAlgorithmMin.java:16-18 | after at least one generation the population has 50 members, all well formed |
| GeneticAlgorithmMin.MinimizeStep | src/main/java/kg/megalab/ga2/GeneticAlgorithmMin.java:16-18 | one loop iteration keeps the invariant that the population is the specification after g generations |
| GeneticAlgorithmMin.Run | src/main/java/kg/megalab/ga2/GeneticAlgorithmMin.java:14-21 | after 100 generations the reported chromosome is a lowest-scoring member of the final population, and its decoded index is the shift fold, below 2^20 |

## Left out

- The objective `0.8x + 1.4 cos(1.8x²) e^(0.4x)` and the scaling `MIN_X + (MAX_X - MIN_X) * index / (2^20 - 1)` are floating point. The model keeps the integer index and takes the ranking score as a function parameter.
- Roulette weights and their sums are exact reals. Double rounding is not modelled, so the "walk undershoots" case behind the fallback never arises from rounding.
- `Random`, `Math.random` and `nextInt` are replaced by draw parameters. The model says nothing about their distribution.
- All console output is left out: the per-generation summaries and the averages. `GeneticAlgorithmPSL.MakeReport` models only the content of the final report.
- `HashMap` iteration order is unspecified in Java. It is a parameter, `hashOrder`. The search requires only that it lists each scored member exactly once (`GeneticAlgorithmPSL.EntryOrder`). Which of several equally scored qualifying members become candidates therefore stays open.
- `GeneticAlgorithm.initializePopulation`, `GeneticAlgorithmMin.initializePopulation` and `findBinarySequence`'s initial population only draw random bits. The models take the initial population as a parameter of the right shape.
- Java `int` overflow is modelled only where the program reaches it: `parseInt` of more than 31 bits returns no value. The shift-XOR decoder works on values below 2^20, so it is modelled on naturals.
- Inputs that make the programs throw are excluded by preconditions:
  - a cut past a string's end;
  - a mutation index past a string's end;
  - `GeneticAlgorithm.grayToBinary` on the empty string, where `gray.charAt(0)` throws (`GeneticAlgorithm.java:159`). `GeneticAlgorithm.GrayToBinary` and `GeneticAlgorithm.DecodeGrayIndex` require a non-empty string;
  - `GeneticAlgorithm.findBest` on an empty population, where `Collections.min` throws `NoSuchElementException` (`GeneticAlgorithm.java:142`). `GeneticAlgorithm.FindBest` requires a non-empty population. This can happen after a short roulette selection (`GeneticAlgorithm.PicksCanFallShort`);
  - `calculatePSL` on fewer than 35 characters;
  - `mutate` on fewer than 20 characters.
- GeneticAlgorithm.FirstKAreNotTheBest: stated for a constructed final population. It shows that the report is not the best three. It does not derive such a population from a run.
- GeneticAlgorithm.EvolvePopulation: the size bound is stated for populations of at most 50, the only size the program passes.
- GeneticAlgorithmMin.Run: reports the index of the decoder as written. The corrected decoder is proved separately and changes nothing else, because the ranking score is a parameter.
- Sidelobe.Reverse: its contract states only the length. Element access is given by the lemma `Sidelobe.ReverseAt`.

## Findings

| source | as written | input that shows it | evidently intended | confidence | as-written member | corrected member |
|---|---|---|---|---|---|---|
| src/main/java/kg/megalab/ga2/GeneticAlgorithmMin.java:82-84 | `result ^= (binary >> shift)` for shift 1, 2, 4, 8, 16 XORs shifts of the original parsed value, not of the running result | the Gray code of 15, `00000000000000001000` (value 8), decodes to 14 | inverse Gray decoding (prefix XOR, as in `GeneticAlgorithm.grayToBinary`), which decodes it to 15 | high; not executed | GeneticAlgorithmMin.FoldBreaksRoundTrip | GeneticAlgorithmMin.DecodeGrayCorrected |
