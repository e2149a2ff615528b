/**
 * The per-TSS proximity decision of `findRelationships`: the TSS midpoint,
 * the "within" and "2KB upstream" candidate sets drawn from the gene lookup
 * of the TSS's own strand class and chromosome, the nearest member of each
 * set, and the reconciliation of the two into one outcome bucket.
 */
module Matcher {
  import opened Wrappers
  import opened GeneIndex

  /**
   * `int(tEnd - ((tEnd - tStart + 1) / 2))`: float division, then truncation
   * toward zero. The real value is (start + end - 1) / 2, so it is computed
   * exactly from that numerator.
   */
  function Midpoint(start: int, end: int): (mid: int)
    // the ceiling form tEnd - ceil((tEnd - tStart + 1) / 2) whenever the value is not negative
    ensures start + end >= 1 ==> mid == end - (end - start + 2) / 2
    // it lies in [tStart - 1, tEnd - 1], one base below the centre of an odd-length span
    ensures 1 <= start <= end ==> start - 1 <= mid <= end - 1
    ensures 1 <= start <= end ==> 2 * mid == start + end - 1 || 2 * mid == start + end - 2
  {
    var twice := start + end - 1;
    if twice >= 0 then twice / 2 else -((-twice) / 2)
  }

  /** Width of the upstream window, in bases (inclusive). */
  const UpstreamWindow := 2000

  /** Strand-aware distance from the TSS midpoint up to the gene's start site. */
  function UpstreamDistance(mid: int, g: Feature): int {
    if g.strand == Some("+") then g.start - mid else mid - g.end
  }

  /** Strand-aware distance from the gene's start site into the gene to the midpoint. */
  function WithinDistance(mid: int, g: Feature): int {
    if g.strand == Some("+") then mid - g.start else g.end - mid
  }

  /** "TSS midpoint within 2KB upstream". */
  predicate InTwoKb(mid: int, g: Feature) {
    0 <= UpstreamDistance(mid, g) <= UpstreamWindow
  }

  /** "TSS midpoint within the gene". */
  predicate InWithin(mid: int, g: Feature) {
    if g.strand == Some("+") then mid - g.start > 0 && mid <= g.end
    else g.end - mid > 0 && mid >= g.start
  }

  /** A gene inside which the midpoint falls is strictly downstream-of-start, so never also 2KB upstream. */
  lemma WithinExcludesTwoKb(mid: int, g: Feature)
    ensures InWithin(mid, g) ==> 0 < WithinDistance(mid, g) && !InTwoKb(mid, g)
    ensures WithinDistance(mid, g) == -UpstreamDistance(mid, g)
  {
  }

  /**
   * Together the two tests cover one unbroken stretch: from 2000 bases
   * upstream of the start site to the far end of the gene.
   */
  lemma ReachIsContiguous(mid: int, g: Feature)
    requires g.start <= g.end
    ensures InWithin(mid, g) || InTwoKb(mid, g) <==>
      if g.strand == Some("+") then g.start - UpstreamWindow <= mid <= g.end
      else g.start <= mid <= g.end + UpstreamWindow
  {
  }

  /** The two kinds of evidence, each with its own membership test and distance. */
  datatype Evidence = Within | TwoKb

  predicate Qualifies(ev: Evidence, mid: int, g: Feature) {
    match ev
    case Within => InWithin(mid, g)
    case TwoKb => InTwoKb(mid, g)
  }

  function Distance(ev: Evidence, mid: int, g: Feature): int {
    match ev
    case Within => WithinDistance(mid, g)
    case TwoKb => UpstreamDistance(mid, g)
  }

  /** The candidate dictionary for one kind of evidence, in the lookup's iteration order. */
  function Candidates(ev: Evidence, mid: int, order: seq<int>, genes: map<int, Feature>): (c: seq<int>)
    requires forall k :: k in order ==> k in genes
    ensures forall k :: k in c ==> k in order
    ensures forall i :: 0 <= i < |c| ==> c[i] in genes
  {
    if order == [] then []
    else
      var rest := Candidates(ev, mid, order[..|order| - 1], genes);
      var last := order[|order| - 1];
      if Qualifies(ev, mid, genes[last]) then rest + [last] else rest
  }

  /** A gene is a candidate exactly when it is in the lookup and passes the test. */
  lemma {:induction false} CandidatesExactly(ev: Evidence, mid: int, order: seq<int>, genes: map<int, Feature>)
    requires forall k :: k in order ==> k in genes
    ensures forall k :: k in Candidates(ev, mid, order, genes) <==> k in order && Qualifies(ev, mid, genes[k])
  {
    if order != [] {
      var init := order[..|order| - 1];
      CandidatesExactly(ev, mid, init, genes);
      assert order == init + [order[|order| - 1]];
    }
  }

  /**
   * Candidates keep the lookup's iteration order: candidate i sits at position
   * pos[i] of the lookup, and the positions increase.
   */
  lemma {:induction false} CandidatesInOrder(ev: Evidence, mid: int, order: seq<int>, genes: map<int, Feature>)
    returns (pos: seq<nat>)
    requires forall k :: k in order ==> k in genes
    ensures |pos| == |Candidates(ev, mid, order, genes)|
    ensures forall i :: 0 <= i < |pos| ==> pos[i] < |order| && order[pos[i]] == Candidates(ev, mid, order, genes)[i]
    ensures forall i, j :: 0 <= i < j < |pos| ==> pos[i] < pos[j]
  {
    if order == [] {
      pos := [];
    } else {
      var n := |order| - 1;
      var init := order[..n];
      var before := CandidatesInOrder(ev, mid, init, genes);
      assert forall i :: 0 <= i < |before| ==> order[before[i]] == init[before[i]];
      var last := order[n];
      assert last in order;
      assert last in genes;
      if Qualifies(ev, mid, genes[last]) {
        pos := before + [n];
      } else {
        pos := before;
      }
    }
  }

  /** Candidates keep the lookup's order, so a duplicate-free lookup gives duplicate-free candidates. */
  lemma {:induction false} CandidatesDistinct(ev: Evidence, mid: int, order: seq<int>, genes: map<int, Feature>)
    requires forall k :: k in order ==> k in genes
    requires forall i, j :: 0 <= i < j < |order| ==> order[i] != order[j]
    ensures forall i, j :: 0 <= i < j < |Candidates(ev, mid, order, genes)| ==>
      Candidates(ev, mid, order, genes)[i] != Candidates(ev, mid, order, genes)[j]
  {
    if order != [] {
      var init := order[..|order| - 1];
      CandidatesDistinct(ev, mid, init, genes);
      assert order[|order| - 1] !in init;
    }
  }

  /** No gene is a candidate of both kinds. */
  lemma CandidatesDisjoint(mid: int, order: seq<int>, genes: map<int, Feature>)
    requires forall k :: k in order ==> k in genes
    ensures forall k :: !(k in Candidates(Within, mid, order, genes) && k in Candidates(TwoKb, mid, order, genes))
  {
    CandidatesExactly(Within, mid, order, genes);
    CandidatesExactly(TwoKb, mid, order, genes);
    forall k | k in order ensures !(InWithin(mid, genes[k]) && InTwoKb(mid, genes[k])) {
      WithinExcludesTwoKb(mid, genes[k]);
    }
  }

  /** The candidate loop over one gene lookup, filling both candidate dictionaries. */
  method CollectCandidates(mid: int, part: Lookup) returns (within: seq<int>, twoKb: seq<int>)
    requires LookupValid(part)
    ensures within == Candidates(Within, mid, part.order, part.entries)
    ensures twoKb == Candidates(TwoKb, mid, part.order, part.entries)
    ensures forall k :: k in within <==> k in part.entries && InWithin(mid, part.entries[k])
    ensures forall k :: k in twoKb <==> k in part.entries && InTwoKb(mid, part.entries[k])
  {
    within, twoKb := [], [];
    var i := 0;
    while i < |part.order|
      invariant 0 <= i <= |part.order|
      invariant within == Candidates(Within, mid, part.order[..i], part.entries)
      invariant twoKb == Candidates(TwoKb, mid, part.order[..i], part.entries)
    {
      var gMarkerKey := part.order[i];
      var g := part.entries[gMarkerKey];
      assert part.order[..i + 1][..i] == part.order[..i];
      var startsite := if g.strand == Some("+") then g.start - mid else mid - g.end;
      if startsite >= 0 && startsite <= UpstreamWindow {
        twoKb := twoKb + [gMarkerKey];
      }
      if g.strand == Some("+") {
        if mid - g.start > 0 && mid <= g.end {
          within := within + [gMarkerKey];
        }
      } else {
        if g.end - mid > 0 && mid >= g.start {
          within := within + [gMarkerKey];
        }
      }
      i := i + 1;
    }
    assert part.order[..i] == part.order;
    CandidatesExactly(Within, mid, part.order, part.entries);
    CandidatesExactly(TwoKb, mid, part.order, part.entries);
  }

  /** The best gene of a candidate set and its distance. */
  datatype Winner = Winner(key: int, distance: int)

  /**
   * The running minimum over the candidates in order, replacing the best on
   * `ss <= closest`: an equal distance seen later wins.
   */
  function Nearest(ev: Evidence, mid: int, cands: seq<int>, genes: map<int, Feature>): Option<Winner>
    requires forall i :: 0 <= i < |cands| ==> cands[i] in genes
  {
    if cands == [] then None
    else
      var best := Nearest(ev, mid, cands[..|cands| - 1], genes);
      var last := cands[|cands| - 1];
      var d := Distance(ev, mid, genes[last]);
      if best.None? || d <= best.value.distance then Some(Winner(last, d)) else best
  }

  /** Candidate i is at minimal distance, and every later candidate is strictly farther. */
  ghost predicate IsLastNearest(ev: Evidence, mid: int, cands: seq<int>, genes: map<int, Feature>, i: int, w: Winner)
    requires forall i :: 0 <= i < |cands| ==> cands[i] in genes
  {
    && 0 <= i < |cands|
    && cands[i] == w.key
    && w.distance == Distance(ev, mid, genes[cands[i]])
    && (forall j :: 0 <= j < |cands| ==> w.distance <= Distance(ev, mid, genes[cands[j]]))
    && (forall j :: i < j < |cands| ==> w.distance < Distance(ev, mid, genes[cands[j]]))
  }

  /** The selector answers "none" iff there are no candidates, and otherwise the last nearest one. */
  lemma {:induction false} NearestIsLastMinimum(ev: Evidence, mid: int, cands: seq<int>, genes: map<int, Feature>)
    requires forall i :: 0 <= i < |cands| ==> cands[i] in genes
    ensures Nearest(ev, mid, cands, genes).None? <==> cands == []
    ensures Nearest(ev, mid, cands, genes).Some? ==>
      exists i :: IsLastNearest(ev, mid, cands, genes, i, Nearest(ev, mid, cands, genes).value)
  {
    if cands != [] {
      var n := |cands| - 1;
      var init := cands[..n];
      NearestIsLastMinimum(ev, mid, init, genes);
      var best := Nearest(ev, mid, init, genes);
      var d := Distance(ev, mid, genes[cands[n]]);
      if best.None? || d <= best.value.distance {
        var w := Winner(cands[n], d);
        if best.Some? {
          var i :| IsLastNearest(ev, mid, init, genes, i, best.value);
          forall j | 0 <= j < |cands| ensures w.distance <= Distance(ev, mid, genes[cands[j]]) {
            if j < n { assert cands[j] == init[j]; }
          }
        }
        assert IsLastNearest(ev, mid, cands, genes, n, w);
      } else {
        var i :| IsLastNearest(ev, mid, init, genes, i, best.value);
        forall j | 0 <= j < |cands| ensures best.value.distance <= Distance(ev, mid, genes[cands[j]]) {
          if j < n { assert cands[j] == init[j]; }
        }
        forall j | i < j < |cands| ensures best.value.distance < Distance(ev, mid, genes[cands[j]]) {
          if j < n { assert cands[j] == init[j]; }
        }
        assert IsLastNearest(ev, mid, cands, genes, i, best.value);
      }
    }
  }

  /** The search for the closest start site over one candidate dictionary. */
  method SelectNearest(ev: Evidence, mid: int, cands: seq<int>, genes: map<int, Feature>) returns (best: Option<Winner>)
    requires forall i :: 0 <= i < |cands| ==> cands[i] in genes
    ensures best == Nearest(ev, mid, cands, genes)
    ensures best.None? <==> cands == []
    ensures best.Some? ==> exists i :: IsLastNearest(ev, mid, cands, genes, i, best.value)
  {
    best := None;
    var i := 0;
    while i < |cands|
      invariant 0 <= i <= |cands|
      invariant best == Nearest(ev, mid, cands[..i], genes)
    {
      var mKey := cands[i];
      var ss := Distance(ev, mid, genes[mKey]);
      assert cands[..i + 1][..i] == cands[..i];
      if best.None? {
        best := Some(Winner(mKey, ss));
      } else if ss <= best.value.distance {
        best := Some(Winner(mKey, ss));
      }
      i := i + 1;
    }
    assert cands[..i] == cands;
    NearestIsLastMinimum(ev, mid, cands, genes);
  }

  /** The six report buckets of the load. */
  datatype Bucket = NoGene | OnlyWithin | Only2Kb | Tie | WithinCloser | TwoKbCloser

  /** The bucket of a TSS and the gene its relationship goes to, if any. */
  datatype Verdict = Verdict(bucket: Bucket, chosen: Option<int>)

  /**
   * Reconciling the best within gene and the best 2KB gene: the nearer one is
   * chosen, the within gene on equal distances; no gene at all is NoGene.
   */
  function Reconcile(w: Option<Winner>, p: Option<Winner>): (v: Verdict)
    ensures v.bucket == NoGene <==> w.None? && p.None?
    ensures v.chosen.None? <==> v.bucket == NoGene
    ensures v.chosen.Some? ==>
      || (w.Some? && v.chosen.value == w.value.key && (p.Some? ==> w.value.distance <= p.value.distance))
      || (p.Some? && v.chosen.value == p.value.key && (w.Some? ==> p.value.distance < w.value.distance))
  {
    if w.None? && p.None? then Verdict(NoGene, None)
    else if w.Some? && p.Some? then
      if w.value.distance == p.value.distance then Verdict(Tie, Some(w.value.key))
      else if w.value.distance < p.value.distance then Verdict(WithinCloser, Some(w.value.key))
      else Verdict(TwoKbCloser, Some(p.value.key))
    else if w.Some? then Verdict(OnlyWithin, Some(w.value.key))
    else Verdict(Only2Kb, Some(p.value.key))
  }

  /** The decision table, row by row. */
  lemma ReconcileTable(w: Option<Winner>, p: Option<Winner>)
    ensures w.None? && p.None? ==> Reconcile(w, p) == Verdict(NoGene, None)
    ensures w.Some? && p.None? ==> Reconcile(w, p) == Verdict(OnlyWithin, Some(w.value.key))
    ensures w.None? && p.Some? ==> Reconcile(w, p) == Verdict(Only2Kb, Some(p.value.key))
    ensures w.Some? && p.Some? && w.value.distance == p.value.distance ==>
      Reconcile(w, p) == Verdict(Tie, Some(w.value.key))
    ensures w.Some? && p.Some? && w.value.distance < p.value.distance ==>
      Reconcile(w, p) == Verdict(WithinCloser, Some(w.value.key))
    ensures w.Some? && p.Some? && w.value.distance > p.value.distance ==>
      Reconcile(w, p) == Verdict(TwoKbCloser, Some(p.value.key))
  {
  }

  /** Everything computed for one TSS: the material of its bucket entry and of its relationship. */
  datatype Decision = Decision(
    midpoint: int,
    within: seq<int>,
    twoKb: seq<int>,
    withinBest: Option<Winner>,
    twoKbBest: Option<Winner>,
    verdict: Verdict)

  /** The decision for a TSS against the gene lookup selected for it. */
  function Match(tss: Feature, part: Lookup): Decision
    requires LookupValid(part)
  {
    var mid := Midpoint(tss.start, tss.end);
    var within := Candidates(Within, mid, part.order, part.entries);
    var twoKb := Candidates(TwoKb, mid, part.order, part.entries);
    var withinBest := Nearest(Within, mid, within, part.entries);
    var twoKbBest := Nearest(TwoKb, mid, twoKb, part.entries);
    Decision(mid, within, twoKb, withinBest, twoKbBest, Reconcile(withinBest, twoKbBest))
  }

  /** The decision for a TSS; selecting a lookup for an unknown chromosome raises. */
  function Decide(tss: Feature, index: Index): (r: Result<Decision, LoadError>)
    requires IndexValid(index)
    ensures r.Failure? <==> !HasPartition(KeyOf(tss))
    ensures r.Failure? ==> r.error == UnknownPartition(KeyOf(tss))
  {
    var key := KeyOf(tss);
    if !HasPartition(key) then Failure(UnknownPartition(key))
    else Success(Match(tss, index[key]))
  }

  /**
   * What a decision means: the candidate sets are exactly the genes of the
   * TSS's own strand class and chromosome passing each test, they are
   * disjoint, each winner is the last nearest member of its set, and the
   * chosen gene is one of the winners.
   */
  lemma DecideMeaning(tss: Feature, index: Index)
    requires IndexValid(index)
    requires HasPartition(KeyOf(tss))
    ensures var d := Decide(tss, index).value; var part := index[KeyOf(tss)];
      && d.midpoint == Midpoint(tss.start, tss.end)
      && (forall k :: k in d.within <==> k in part.entries && InWithin(d.midpoint, part.entries[k]))
      && (forall k :: k in d.twoKb <==> k in part.entries && InTwoKb(d.midpoint, part.entries[k]))
      && (forall k :: k in d.within || k in d.twoKb ==>
            part.entries[k].chromosome == tss.chromosome && StrandClassOf(part.entries[k].strand) == StrandClassOf(tss.strand))
      && (forall k :: !(k in d.within && k in d.twoKb))
      && (d.withinBest.None? <==> d.within == [])
      && (d.withinBest.Some? ==> exists i :: IsLastNearest(Within, d.midpoint, d.within, part.entries, i, d.withinBest.value))
      && (d.twoKbBest.None? <==> d.twoKb == [])
      && (d.twoKbBest.Some? ==> exists i :: IsLastNearest(TwoKb, d.midpoint, d.twoKb, part.entries, i, d.twoKbBest.value))
      && d.verdict == Reconcile(d.withinBest, d.twoKbBest)
  {
    var d := Decide(tss, index).value;
    var part := index[KeyOf(tss)];
    CandidatesExactly(Within, d.midpoint, part.order, part.entries);
    CandidatesExactly(TwoKb, d.midpoint, part.order, part.entries);
    CandidatesDisjoint(d.midpoint, part.order, part.entries);
    NearestIsLastMinimum(Within, d.midpoint, d.within, part.entries);
    NearestIsLastMinimum(TwoKb, d.midpoint, d.twoKb, part.entries);
    forall k | k in d.within || k in d.twoKb
      ensures part.entries[k].chromosome == tss.chromosome && StrandClassOf(part.entries[k].strand) == StrandClassOf(tss.strand)
    {
      assert KeyOf(part.entries[k]) == KeyOf(tss);
    }
  }

  /**
   * The per-TSS part of the loop body: the midpoint, the lookup named by the
   * TSS's strand class and chromosome (raising when there is none), both
   * candidate dictionaries and both nearest genes.
   */
  method DecideTss(tss: Feature, index: Index) returns (r: Result<Decision, LoadError>)
    requires IndexValid(index)
    ensures r == Decide(tss, index)
    ensures r.Success? ==> r.value.verdict == Reconcile(r.value.withinBest, r.value.twoKbBest)
  {
    var tMidPoint := Midpoint(tss.start, tss.end);
    var strand := if tss.strand == Some("-") then Minus else Plus;
    var prefix := PartitionKey(strand, tss.chromosome);
    if !HasPartition(prefix) {
      return Failure(UnknownPartition(prefix));
    }
    var geneLookup := index[prefix];
    var within, twoKb := CollectCandidates(tMidPoint, geneLookup);
    var withinBest := SelectNearest(Within, tMidPoint, within, geneLookup.entries);
    var twoKbBest := SelectNearest(TwoKb, tMidPoint, twoKb, geneLookup.entries);
    r := Success(Decision(tMidPoint, within, twoKb, withinBest, twoKbBest, Reconcile(withinBest, twoKbBest)));
  }
}
