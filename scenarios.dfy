/**
 * Worked decisions for one TSS on chromosome 2, plus strand, spanning
 * [1000, 1010], against small plus-strand gene lookups. They pin down what
 * the load's midpoint formula and strict/inclusive bounds do at the edges.
 */
module LoadScenarios {
  import opened Wrappers
  import opened GeneIndex
  import opened Matcher

  const Tss := Feature("2", Some("+"), 1000, 1010, "MGI:T", "Tssr1")

  function Gene(start: int, end: int): Feature {
    Feature("2", Some("+"), start, end, "MGI:G", "G")
  }

  /** The lookup {1: a, 2: b}, iterated in that order. */
  function Pair(a: Feature, b: Feature): (l: Lookup)
    ensures LookupValid(l)
  {
    Lookup([1, 2], map[1 := a, 2 := b])
  }

  /** The TSS midpoint is 1004 = int(1010 - 11 / 2), one base below the centre 1005. */
  lemma MidpointOfExample()
    ensures Midpoint(Tss.start, Tss.end) == 1004
  {
    assert (1000 + 1010 - 1) / 2 == 1004;
  }

  /**
   * Gene A [1005, 2000] starts one base past the midpoint, so it is 2KB
   * upstream at distance 1 and not within (the within test is strict);
   * gene B [2900, 3000] is 2KB upstream at distance 1896. The nearer, A, is
   * chosen, from the Only2Kb bucket.
   */
  lemma UpstreamNeighbourWins()
    ensures var d := Match(Tss, Pair(Gene(1005, 2000), Gene(2900, 3000)));
      && d.within == [] && d.twoKb == [1, 2]
      && d.twoKbBest == Some(Winner(1, 1))
      && d.verdict == Verdict(Only2Kb, Some(1))
  {
    MidpointOfExample();
    var e := Pair(Gene(1005, 2000), Gene(2900, 3000)).entries;
    assert [1, 2][..1] == [1] && [1][..0] == [];
    assert Candidates(Within, 1004, [1], e) == [];
    assert Candidates(Within, 1004, [1, 2], e) == [];
    assert Candidates(TwoKb, 1004, [1], e) == [1];
    assert Candidates(TwoKb, 1004, [1, 2], e) == [1, 2];
    assert Nearest(TwoKb, 1004, [1], e) == Some(Winner(1, 1));
    assert Nearest(TwoKb, 1004, [1, 2], e) == Some(Winner(1, 1));
  }

  /** A gene starting 2001 bases above the midpoint (at 3005) is outside the window: no gene. */
  lemma WindowEdgeExcluded()
    ensures var d := Match(Tss, Lookup([2], map[2 := Gene(3005, 4000)]));
      && d.within == [] && d.twoKb == []
      && d.verdict == Verdict(NoGene, None)
  {
    MidpointOfExample();
  }

  /** A gene starting exactly 2000 bases above the midpoint (at 3004) is inside the inclusive window. */
  lemma WindowEdgeIncluded()
    ensures var d := Match(Tss, Lookup([2], map[2 := Gene(3004, 4000)]));
      && d.within == [] && d.twoKb == [2]
      && d.verdict == Verdict(Only2Kb, Some(2))
  {
    MidpointOfExample();
  }

  /**
   * Two 2KB candidates at the same distance: the selector replaces on
   * `ss <= closest`, so the later one in the lookup's order wins.
   */
  lemma EqualDistanceLaterWins()
    ensures var d := Match(Tss, Pair(Gene(1100, 2000), Gene(1100, 3000)));
      d.twoKbBest == Some(Winner(2, 96)) && d.verdict == Verdict(Only2Kb, Some(2))
  {
    MidpointOfExample();
    var e := Pair(Gene(1100, 2000), Gene(1100, 3000)).entries;
    assert [1, 2][..1] == [1] && [1][..0] == [];
    assert Candidates(Within, 1004, [1], e) == [];
    assert Candidates(Within, 1004, [1, 2], e) == [];
    assert Candidates(TwoKb, 1004, [1], e) == [1];
    assert Candidates(TwoKb, 1004, [1, 2], e) == [1, 2];
    assert Nearest(TwoKb, 1004, [1], e) == Some(Winner(1, 96));
    assert Nearest(TwoKb, 1004, [1, 2], e) == Some(Winner(2, 96));
  }

  /** A within candidate at distance 5 against a 2KB candidate at 3: the 2KB gene is closer. */
  lemma CloserUpstreamBeatsWithin()
    ensures Reconcile(Some(Winner(10, 5)), Some(Winner(20, 3))) == Verdict(TwoKbCloser, Some(20))
  {
    ReconcileTable(Some(Winner(10, 5)), Some(Winner(20, 3)));
  }

  /** Equal distances are a Tie, and the within gene is chosen. */
  lemma TieGoesToWithin()
    ensures Reconcile(Some(Winner(10, 4)), Some(Winner(20, 4))) == Verdict(Tie, Some(10))
  {
    ReconcileTable(Some(Winner(10, 4)), Some(Winner(20, 4)));
  }
}
