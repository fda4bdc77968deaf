/**
 * One-point crossover, the substring surgery all three programs share:
 * the first child takes the first parent's prefix before the cut and the
 * second parent's suffix from it, the second child the other way round.
 */
module OnePoint {
  import opened Bits

  /** `(p1.substring(0, point) + p2.substring(point), p2.substring(0, point) + p1.substring(point))` */
  function Splice(p1: Chromosome, p2: Chromosome, point: nat): (c: (Chromosome, Chromosome))
    requires point <= |p1| && point <= |p2|
    ensures |c.0| == |p2| && |c.1| == |p1|
  {
    (p1[..point] + p2[point..], p2[..point] + p1[point..])
  }

  /**
   * Position by position the children hold the parents' two bits: in the
   * same order before the cut, exchanged from the cut on.
   */
  lemma SpliceExchanges(p1: Chromosome, p2: Chromosome, point: nat)
    requires |p1| == |p2| && point <= |p1|
    ensures var c := Splice(p1, p2, point);
      forall i :: 0 <= i < |p1| ==>
        (i < point ==> c.0[i] == p1[i] && c.1[i] == p2[i]) &&
        (point <= i ==> c.0[i] == p2[i] && c.1[i] == p1[i])
    ensures var c := Splice(p1, p2, point);
      forall i :: 0 <= i < |p1| ==> multiset{c.0[i], c.1[i]} == multiset{p1[i], p2[i]}
  {
  }

  /** Crossover neither creates nor destroys '1' bits: the total count is kept. */
  lemma SplicePreservesOnes(p1: Chromosome, p2: Chromosome, point: nat)
    requires point <= |p1| && point <= |p2|
    ensures CountOnes(Splice(p1, p2, point).0) + CountOnes(Splice(p1, p2, point).1)
         == CountOnes(p1) + CountOnes(p2)
  {
    var c := Splice(p1, p2, point);
    assert c.0 == p1[..point] + p2[point..] && c.1 == p2[..point] + p1[point..];
    CountOnesConcat(p1[..point], p2[point..]);
    CountOnesConcat(p2[..point], p1[point..]);
    assert p1 == p1[..point] + p1[point..];
    assert p2 == p2[..point] + p2[point..];
    CountOnesConcat(p1[..point], p1[point..]);
    CountOnesConcat(p2[..point], p2[point..]);
  }
}
