/**
 * One run of the TSS-to-gene load: the relationship key seed, the filling of
 * the lookups, and `findRelationships`, which decides every TSS in the TSS
 * lookup's order, files it under one of six report buckets and writes one
 * MGI_Relationship row for every TSS that has a gene.
 */
module TssGeneLoad {
  import opened Wrappers
  import opened GeneIndex
  import opened Matcher

  // Fixed metadata of every relationship row of the load.
  const CategoryKey := 1008           // 'tss_to_gene'
  const RelationshipTermKey := 41697543  // 'transcription_start_site'
  const QualifierKey := 11391898      // 'Not Specified'
  const EvidenceKey := 17396909       // 'Not Specified'
  const ReferenceKey := 209979        // J:208882
  const UserKey := 1604               // tssgeneload
  /** The first relationship key when MGI_Relationship is empty. */
  const FirstKeyOfEmptyTable := 1000

  /** One line of MGI_Relationship.bcp. */
  datatype Relationship = Relationship(
    relationshipKey: int,
    categoryKey: int,
    object1: int,
    object2: int,
    relationshipTermKey: int,
    qualifierKey: int,
    evidenceKey: int,
    referenceKey: int,
    createdByKey: int,
    modifiedByKey: int,
    creationDate: string,
    modificationDate: string)

  function RelationshipRow(key: int, tssKey: int, geneKey: int, cdate: string): (r: Relationship)
    ensures r.relationshipKey == key && r.object1 == tssKey && r.object2 == geneKey
    ensures HasRunMetadata(r, cdate)
  {
    Relationship(key, CategoryKey, tssKey, geneKey, RelationshipTermKey, QualifierKey, EvidenceKey,
      ReferenceKey, UserKey, UserKey, cdate, cdate)
  }

  /** The row carries the run's fixed category, term, qualifier, evidence, reference, user and date. */
  predicate HasRunMetadata(r: Relationship, cdate: string) {
    && r.categoryKey == CategoryKey && r.relationshipTermKey == RelationshipTermKey
    && r.qualifierKey == QualifierKey && r.evidenceKey == EvidenceKey && r.referenceKey == ReferenceKey
    && r.createdByKey == UserKey && r.modifiedByKey == UserKey
    && r.creationDate == cdate && r.modificationDate == cdate
  }

  function MaxKey(keys: seq<int>): (m: int)
    requires keys != []
    ensures m in keys
    ensures forall k :: k in keys ==> k <= m
  {
    if |keys| == 1 then keys[0]
    else
      var rest := MaxKey(keys[1..]);
      assert forall k :: k in keys ==> k == keys[0] || k in keys[1..];
      if keys[0] >= rest then keys[0] else rest
  }

  /**
   * `select max(_Relationship_key) + 1`, or 1000 when the query yields null:
   * the first key is above every existing key and directly follows the largest.
   */
  function NextKey(existingKeys: seq<int>): (r: int)
    ensures existingKeys == [] ==> r == FirstKeyOfEmptyTable
    ensures existingKeys != [] ==> r - 1 in existingKeys
    ensures forall k :: k in existingKeys ==> k < r
  {
    if existingKeys == [] then FirstKeyOfEmptyTable else MaxKey(existingKeys) + 1
  }

  /** The two candidate dictionaries kept for a TSS in the Tie and Closer reports. */
  datatype CandidatePair = CandidatePair(within: seq<int>, twoKb: seq<int>)

  /** The six report dictionaries of the run, keyed by TSS marker key. */
  datatype Reports = Reports(
    tie: map<int, CandidatePair>,
    withinCloser: map<int, CandidatePair>,
    twoKbCloser: map<int, CandidatePair>,
    onlyWithin: map<int, seq<int>>,
    only2Kb: map<int, seq<int>>,
    noGene: map<int, Feature>)

  const NoReports := Reports(map[], map[], map[], map[], map[], map[])

  /** The run's mutable globals: the key counter, the written rows and the report dictionaries. */
  datatype RunState = RunState(nextKey: int, rows: seq<Relationship>, reports: Reports)

  function FreshState(nextKey: int): RunState {
    RunState(nextKey, [], NoReports)
  }

  /** Files a decided TSS in the report dictionary of its bucket; the other five are unchanged. */
  function FileReport(r: Reports, tssKey: int, tss: Feature, d: Decision): Reports {
    var b := d.verdict.bucket;
    var pair := CandidatePair(d.within, d.twoKb);
    Reports(
      if b == Tie then r.tie[tssKey := pair] else r.tie,
      if b == WithinCloser then r.withinCloser[tssKey := pair] else r.withinCloser,
      if b == TwoKbCloser then r.twoKbCloser[tssKey := pair] else r.twoKbCloser,
      if b == OnlyWithin then r.onlyWithin[tssKey := d.within] else r.onlyWithin,
      if b == Only2Kb then r.only2Kb[tssKey := d.twoKb] else r.only2Kb,
      if b == NoGene then r.noGene[tssKey := tss] else r.noGene)
  }

  /** Files a decided TSS in its bucket and, unless it is NoGene, writes its row with the next key. */
  function Record(s: RunState, tssKey: int, tss: Feature, d: Decision, cdate: string): RunState {
    var reports := FileReport(s.reports, tssKey, tss, d);
    match d.verdict.chosen
    case None => RunState(s.nextKey, s.rows, reports)
    case Some(gene) => RunState(s.nextKey + 1, s.rows + [RelationshipRow(s.nextKey, tssKey, gene, cdate)], reports)
  }

  /** The decision for every TSS, in loop order. */
  function Decisions(keys: seq<int>, tss: map<int, Feature>, index: Index): (ds: seq<Result<Decision, LoadError>>)
    requires IndexValid(index)
    requires forall i :: 0 <= i < |keys| ==> keys[i] in tss
    ensures |ds| == |keys|
    decreases |keys|
  {
    if keys == [] then [] else [Decide(tss[keys[0]], index)] + Decisions(keys[1..], tss, index)
  }

  /** The decision at each position is that of the TSS with the key there. */
  lemma {:induction false} DecisionsAt(keys: seq<int>, tss: map<int, Feature>, index: Index, i: nat)
    requires IndexValid(index)
    requires forall j :: 0 <= j < |keys| ==> keys[j] in tss
    requires i < |keys|
    ensures Decisions(keys, tss, index)[i] == Decide(tss[keys[i]], index)
    decreases i
  {
    if i > 0 {
      DecisionsAt(keys[1..], tss, index, i - 1);
      assert keys[1..][i - 1] == keys[i];
    }
  }

  /** The state reached by the TSS loop, and the error that ended it early, if any. */
  datatype RunOutcome = RunOutcome(state: RunState, error: Option<LoadError>)

  /** The TSS loop over given decisions: record each in turn, stopping at the first that raised. */
  function RunWith(s: RunState, keys: seq<int>, tss: map<int, Feature>, ds: seq<Result<Decision, LoadError>>, cdate: string): RunOutcome
    requires |ds| == |keys|
    requires forall i :: 0 <= i < |keys| ==> keys[i] in tss
    decreases |keys|
  {
    if keys == [] then RunOutcome(s, None)
    else match ds[0]
      case Failure(e) => RunOutcome(s, Some(e))
      case Success(d) => RunWith(Record(s, keys[0], tss[keys[0]], d, cdate), keys[1..], tss, ds[1..], cdate)
  }

  /** `findRelationships` over the TSS keys in order, from state s. */
  function Run(s: RunState, keys: seq<int>, tss: map<int, Feature>, index: Index, cdate: string): RunOutcome
    requires IndexValid(index)
    requires forall i :: 0 <= i < |keys| ==> keys[i] in tss
  {
    RunWith(s, keys, tss, Decisions(keys, tss, index), cdate)
  }

  /** A relationship as the pair (object1, object2) = (TSS marker key, gene marker key). */
  datatype Link = Link(tssKey: int, geneKey: int)

  /** The relationships the decisions call for, in TSS order, up to the first decision that raised. */
  function Links(keys: seq<int>, ds: seq<Result<Decision, LoadError>>): seq<Link>
    requires |ds| == |keys|
    decreases |keys|
  {
    if keys == [] then []
    else match ds[0]
      case Failure(_) => []
      case Success(d) =>
        (if d.verdict.chosen.Some? then [Link(keys[0], d.verdict.chosen.value)] else []) + Links(keys[1..], ds[1..])
  }

  /** The number of report buckets that hold a TSS. */
  function BucketCount(r: Reports, k: int): nat {
    (if k in r.noGene then 1 else 0) +
    (if k in r.onlyWithin then 1 else 0) +
    (if k in r.only2Kb then 1 else 0) +
    (if k in r.tie then 1 else 0) +
    (if k in r.withinCloser then 1 else 0) +
    (if k in r.twoKbCloser then 1 else 0)
  }

  /** The bucket entry of a TSS holds what the report shows for its decision. */
  predicate EntryShows(r: Reports, k: int, tss: Feature, d: Decision) {
    match d.verdict.bucket
    case NoGene => k in r.noGene && r.noGene[k] == tss
    case OnlyWithin => k in r.onlyWithin && r.onlyWithin[k] == d.within
    case Only2Kb => k in r.only2Kb && r.only2Kb[k] == d.twoKb
    case Tie => k in r.tie && r.tie[k] == CandidatePair(d.within, d.twoKb)
    case WithinCloser => k in r.withinCloser && r.withinCloser[k] == CandidatePair(d.within, d.twoKb)
    case TwoKbCloser => k in r.twoKbCloser && r.twoKbCloser[k] == CandidatePair(d.within, d.twoKb)
  }

  /** Filing a TSS that is in no bucket puts it in exactly one, with its decision's report entry. */
  lemma FileReportFiles(r: Reports, tssKey: int, tss: Feature, d: Decision)
    requires BucketCount(r, tssKey) == 0
    ensures BucketCount(FileReport(r, tssKey, tss, d), tssKey) == 1
    ensures EntryShows(FileReport(r, tssKey, tss, d), tssKey, tss, d)
  {
  }

  /** Two report states agree on the entries of TSS k in all six dictionaries. */
  predicate SameAt(a: Reports, b: Reports, k: int) {
    && (k in a.tie <==> k in b.tie) && (k in a.tie ==> a.tie[k] == b.tie[k])
    && (k in a.withinCloser <==> k in b.withinCloser) && (k in a.withinCloser ==> a.withinCloser[k] == b.withinCloser[k])
    && (k in a.twoKbCloser <==> k in b.twoKbCloser) && (k in a.twoKbCloser ==> a.twoKbCloser[k] == b.twoKbCloser[k])
    && (k in a.onlyWithin <==> k in b.onlyWithin) && (k in a.onlyWithin ==> a.onlyWithin[k] == b.onlyWithin[k])
    && (k in a.only2Kb <==> k in b.only2Kb) && (k in a.only2Kb ==> a.only2Kb[k] == b.only2Kb[k])
    && (k in a.noGene <==> k in b.noGene) && (k in a.noGene ==> a.noGene[k] == b.noGene[k])
  }

  /** Report states that agree on a TSS put it in the same buckets with the same entry. */
  lemma SameAtShows(a: Reports, b: Reports, k: int, t: Feature, e: Decision)
    requires SameAt(a, b, k)
    ensures BucketCount(a, k) == BucketCount(b, k)
    ensures EntryShows(a, k, t, e) <==> EntryShows(b, k, t, e)
  {
  }

  lemma SameAtTrans(a: Reports, b: Reports, c: Reports, k: int)
    requires SameAt(a, b, k) && SameAt(b, c, k)
    ensures SameAt(a, c, k)
  {
  }

  /** Filing a TSS leaves the entries of every other TSS alone. */
  lemma FileReportKeepsOthers(r: Reports, tssKey: int, tss: Feature, d: Decision, k: int)
    requires k != tssKey
    ensures SameAt(FileReport(r, tssKey, tss, d), r, k)
  {
  }

  /** Recording writes one row with the current key exactly when a gene was chosen. */
  lemma RecordRows(s: RunState, tssKey: int, tss: Feature, d: Decision, cdate: string)
    ensures var r := Record(s, tssKey, tss, d, cdate);
      && r.reports == FileReport(s.reports, tssKey, tss, d)
      && (d.verdict.chosen.None? ==> r.rows == s.rows && r.nextKey == s.nextKey)
      && (d.verdict.chosen.Some? ==>
            r.rows == s.rows + [RelationshipRow(s.nextKey, tssKey, d.verdict.chosen.value, cdate)]
            && r.nextKey == s.nextKey + 1)
  {
  }

  /** From index `from` on, the rows carry the consecutive keys key, key + 1, ... and the run's metadata. */
  predicate NumberedFrom(rows: seq<Relationship>, from: nat, key: int, cdate: string) {
    forall i :: from <= i < |rows| ==> rows[i].relationshipKey == key + (i - from) && HasRunMetadata(rows[i], cdate)
  }

  /**
   * The rows a run writes extend the old ones, carry the consecutive keys
   * nextKey, nextKey + 1, ... and the run's metadata, and the counter ends
   * one past the last key used.
   */
  lemma {:induction false} RunNumbersRows(s: RunState, keys: seq<int>, tss: map<int, Feature>,
                                          ds: seq<Result<Decision, LoadError>>, cdate: string)
    requires |ds| == |keys|
    requires forall i :: 0 <= i < |keys| ==> keys[i] in tss
    ensures var r := RunWith(s, keys, tss, ds, cdate).state;
      && |r.rows| >= |s.rows|
      && r.rows[..|s.rows|] == s.rows
      && r.nextKey == s.nextKey + (|r.rows| - |s.rows|)
      && NumberedFrom(r.rows, |s.rows|, s.nextKey, cdate)
    decreases |keys|
  {
    if keys != [] {
      match ds[0]
      case Failure(_) =>
      case Success(d) =>
        var next := Record(s, keys[0], tss[keys[0]], d, cdate);
        RecordRows(s, keys[0], tss[keys[0]], d, cdate);
        RunNumbersRows(next, keys[1..], tss, ds[1..], cdate);
        var r := RunWith(s, keys, tss, ds, cdate).state;
        assert r == RunWith(next, keys[1..], tss, ds[1..], cdate).state;
        assert r.rows[..|next.rows|] == next.rows;
        assert next.rows[..|s.rows|] == s.rows;
        assert r.rows[..|s.rows|] == r.rows[..|next.rows|][..|s.rows|];
        if d.verdict.chosen.Some? {
          forall i | |s.rows| <= i < |r.rows|
            ensures r.rows[i].relationshipKey == s.nextKey + (i - |s.rows|) && HasRunMetadata(r.rows[i], cdate)
          {
            if i == |s.rows| {
              assert r.rows[i] == next.rows[i] == RelationshipRow(s.nextKey, keys[0], d.verdict.chosen.value, cdate);
            }
          }
        }
    }
  }

  /** Row by row, the run writes exactly the relationships the decisions call for: object1 the TSS, object2 its gene. */
  lemma {:induction false} RunWritesLinks(s: RunState, keys: seq<int>, tss: map<int, Feature>,
                                          ds: seq<Result<Decision, LoadError>>, cdate: string)
    requires |ds| == |keys|
    requires forall i :: 0 <= i < |keys| ==> keys[i] in tss
    ensures var r := RunWith(s, keys, tss, ds, cdate).state; var links := Links(keys, ds);
      && |r.rows| == |s.rows| + |links|
      && forall i :: 0 <= i < |links| ==>
           r.rows[|s.rows| + i].object1 == links[i].tssKey && r.rows[|s.rows| + i].object2 == links[i].geneKey
    decreases |keys|
  {
    if keys != [] {
      match ds[0]
      case Failure(_) =>
      case Success(d) =>
        var next := Record(s, keys[0], tss[keys[0]], d, cdate);
        RecordRows(s, keys[0], tss[keys[0]], d, cdate);
        RunWritesLinks(next, keys[1..], tss, ds[1..], cdate);
        RunNumbersRows(next, keys[1..], tss, ds[1..], cdate);
        var r := RunWith(s, keys, tss, ds, cdate).state;
        var links := Links(keys, ds);
        var rest := Links(keys[1..], ds[1..]);
        assert r == RunWith(next, keys[1..], tss, ds[1..], cdate).state;
        if d.verdict.chosen.Some? {
          assert links == [Link(keys[0], d.verdict.chosen.value)] + rest;
          assert r.rows[..|next.rows|] == next.rows;
          assert r.rows[|s.rows|] == next.rows[|s.rows|];
          forall i | 0 <= i < |links|
            ensures r.rows[|s.rows| + i].object1 == links[i].tssKey && r.rows[|s.rows| + i].object2 == links[i].geneKey
          {
            if i > 0 { assert links[i] == rest[i - 1]; }
          }
        } else {
          assert links == rest;
        }
    }
  }

  /** The run ends early exactly when a decision raised, and then with the error of the first one that did. */
  lemma {:induction false} RunError(s: RunState, keys: seq<int>, tss: map<int, Feature>,
                                    ds: seq<Result<Decision, LoadError>>, cdate: string)
    requires |ds| == |keys|
    requires forall i :: 0 <= i < |keys| ==> keys[i] in tss
    ensures RunWith(s, keys, tss, ds, cdate).error.None? <==> forall i :: 0 <= i < |ds| ==> ds[i].Success?
    ensures RunWith(s, keys, tss, ds, cdate).error.Some? ==>
      exists i :: 0 <= i < |ds| && ds[i].Failure? && RunWith(s, keys, tss, ds, cdate).error.value == ds[i].error
        && forall j :: 0 <= j < i ==> ds[j].Success?
    decreases |keys|
  {
    if keys != [] {
      match ds[0]
      case Failure(_) =>
      case Success(d) =>
        var next := Record(s, keys[0], tss[keys[0]], d, cdate);
        RunError(next, keys[1..], tss, ds[1..], cdate);
        assert forall i :: 1 <= i < |ds| ==> ds[i] == ds[1..][i - 1];
        if RunWith(s, keys, tss, ds, cdate).error.Some? {
          var i :| 0 <= i < |ds[1..]| && ds[1..][i].Failure? && RunWith(next, keys[1..], tss, ds[1..], cdate).error.value == ds[1..][i].error
            && forall j :: 0 <= j < i ==> ds[1..][j].Success?;
          assert forall j :: 0 <= j < i + 1 ==> ds[j].Success? by {
            forall j | 0 <= j < i + 1 ensures ds[j].Success? {
              if j > 0 { assert ds[j] == ds[1..][j - 1]; }
            }
          }
        }
    }
  }

  /**
   * Over distinct TSS keys not yet in any bucket, a run without error puts
   * every TSS in exactly one bucket, the one its decision names, with the
   * decision's candidates as the report entry; other TSSs are untouched.
   */
  lemma {:induction false} RunBuckets(s: RunState, keys: seq<int>, tss: map<int, Feature>,
                                      ds: seq<Result<Decision, LoadError>>, cdate: string)
    requires |ds| == |keys|
    requires forall i :: 0 <= i < |keys| ==> keys[i] in tss
    requires forall i, j :: 0 <= i < j < |keys| ==> keys[i] != keys[j]
    requires forall i :: 0 <= i < |keys| ==> BucketCount(s.reports, keys[i]) == 0
    ensures var o := RunWith(s, keys, tss, ds, cdate);
      o.error.None? ==> forall i :: 0 <= i < |keys| ==>
        && ds[i].Success?
        && BucketCount(o.state.reports, keys[i]) == 1
        && EntryShows(o.state.reports, keys[i], tss[keys[i]], ds[i].value)
    ensures var o := RunWith(s, keys, tss, ds, cdate);
      forall k :: (forall i :: 0 <= i < |keys| ==> keys[i] != k) ==> SameAt(o.state.reports, s.reports, k)
    decreases |keys|
  {
    if keys != [] {
      match ds[0]
      case Failure(_) =>
      case Success(d) =>
        var k0 := keys[0];
        var rest := keys[1..];
        var next := Record(s, k0, tss[k0], d, cdate);
        RecordRows(s, k0, tss[k0], d, cdate);
        FileReportFiles(s.reports, k0, tss[k0], d);
        assert forall i :: 0 <= i < |rest| ==> rest[i] == keys[i + 1];
        forall i | 0 <= i < |rest| ensures BucketCount(next.reports, rest[i]) == 0 {
          FileReportKeepsOthers(s.reports, k0, tss[k0], d, rest[i]);
          SameAtShows(next.reports, s.reports, rest[i], tss[k0], d);
        }
        RunBuckets(next, rest, tss, ds[1..], cdate);
        var o := RunWith(s, keys, tss, ds, cdate);
        assert o == RunWith(next, rest, tss, ds[1..], cdate);
        assert SameAt(o.state.reports, next.reports, k0);
        SameAtShows(o.state.reports, next.reports, k0, tss[k0], d);
        forall i | 0 <= i < |keys| && o.error.None?
          ensures && ds[i].Success?
                  && BucketCount(o.state.reports, keys[i]) == 1
                  && EntryShows(o.state.reports, keys[i], tss[keys[i]], ds[i].value)
        {
          if i > 0 { assert keys[i] == rest[i - 1] && ds[i] == ds[1..][i - 1]; }
        }
        forall k | forall i :: 0 <= i < |keys| ==> keys[i] != k
          ensures SameAt(o.state.reports, s.reports, k)
        {
          assert k != keys[0];
          FileReportKeepsOthers(s.reports, k0, tss[k0], d, k);
          assert forall i :: 0 <= i < |rest| ==> rest[i] != k;
          SameAtTrans(o.state.reports, next.reports, s.reports, k);
        }
    }
  }

  /**
   * A whole run from the initial globals over a TSS dictionary writes one
   * relationship row per TSS that has a gene, and leaves the key counter
   * that many keys past the seed.
   */
  lemma RunFromFreshStateCount(nextKey: int, tssLookup: Lookup, index: Index, cdate: string)
    requires IndexValid(index)
    requires LookupValid(tssLookup)
    ensures forall i :: 0 <= i < |tssLookup.order| ==> tssLookup.order[i] in tssLookup.entries
    ensures var keys := tssLookup.order; var tss := tssLookup.entries;
      var o := Run(FreshState(nextKey), keys, tss, index, cdate);
      var links := Links(keys, Decisions(keys, tss, index));
      && |o.state.rows| == |links|
      && o.state.nextKey == nextKey + |links|
  {
    OrderInEntries(tssLookup);
    var keys := tssLookup.order;
    var tss := tssLookup.entries;
    var ds := Decisions(keys, tss, index);
    var s := FreshState(nextKey);
    RunNumbersRows(s, keys, tss, ds, cdate);
    RunWritesLinks(s, keys, tss, ds, cdate);
  }

  /**
   * Row i of a whole run from the initial globals is relationship i of the
   * run, in TSS order, with key seed + i and the run's metadata.
   */
  lemma RunFromFreshStateRows(nextKey: int, tssLookup: Lookup, index: Index, cdate: string)
    requires IndexValid(index)
    requires LookupValid(tssLookup)
    ensures forall i :: 0 <= i < |tssLookup.order| ==> tssLookup.order[i] in tssLookup.entries
    ensures var keys := tssLookup.order; var tss := tssLookup.entries;
      var o := Run(FreshState(nextKey), keys, tss, index, cdate);
      var links := Links(keys, Decisions(keys, tss, index));
      forall i :: 0 <= i < |links| && i < |o.state.rows| ==>
        o.state.rows[i] == RelationshipRow(nextKey + i, links[i].tssKey, links[i].geneKey, cdate)
  {
    OrderInEntries(tssLookup);
    var keys := tssLookup.order;
    var tss := tssLookup.entries;
    var ds := Decisions(keys, tss, index);
    var s := FreshState(nextKey);
    RunNumbersRows(s, keys, tss, ds, cdate);
    RunWritesLinks(s, keys, tss, ds, cdate);
  }

  /**
   * A whole run stops with an error exactly when some TSS's chromosome has
   * no gene lookup, and the error names the missing lookup of the first such TSS.
   */
  lemma RunFromFreshStateError(nextKey: int, tssLookup: Lookup, index: Index, cdate: string)
    requires IndexValid(index)
    requires LookupValid(tssLookup)
    ensures forall i :: 0 <= i < |tssLookup.order| ==> tssLookup.order[i] in tssLookup.entries
    ensures var keys := tssLookup.order; var tss := tssLookup.entries;
      var o := Run(FreshState(nextKey), keys, tss, index, cdate);
      && (o.error.None? <==> forall i :: 0 <= i < |keys| ==> HasPartition(KeyOf(tss[keys[i]])))
      && (o.error.Some? ==>
            exists i ::
              && 0 <= i < |keys|
              && !HasPartition(KeyOf(tss[keys[i]]))
              && o.error.value == UnknownPartition(KeyOf(tss[keys[i]]))
              && forall j :: 0 <= j < i ==> HasPartition(KeyOf(tss[keys[j]])))
  {
    OrderInEntries(tssLookup);
    var keys := tssLookup.order;
    var tss := tssLookup.entries;
    var ds := Decisions(keys, tss, index);
    RunError(FreshState(nextKey), keys, tss, ds, cdate);
    forall i | 0 <= i < |keys|
      ensures ds[i].Success? <==> HasPartition(KeyOf(tss[keys[i]]))
      ensures ds[i].Failure? ==> ds[i].error == UnknownPartition(KeyOf(tss[keys[i]]))
    {
      DecisionsAt(keys, tss, index, i);
    }
  }

  /**
   * A whole run that completes leaves every TSS in exactly one report
   * bucket, the one its decision names.
   */
  lemma RunFromFreshStateBuckets(nextKey: int, tssLookup: Lookup, index: Index, cdate: string)
    requires IndexValid(index)
    requires LookupValid(tssLookup)
    ensures forall i :: 0 <= i < |tssLookup.order| ==> tssLookup.order[i] in tssLookup.entries
    ensures var keys := tssLookup.order; var tss := tssLookup.entries;
      var o := Run(FreshState(nextKey), keys, tss, index, cdate);
      o.error.None? ==> forall k :: k in tss ==>
        && Decide(tss[k], index).Success?
        && BucketCount(o.state.reports, k) == 1
        && EntryShows(o.state.reports, k, tss[k], Decide(tss[k], index).value)
  {
    OrderInEntries(tssLookup);
    var keys := tssLookup.order;
    var tss := tssLookup.entries;
    var ds := Decisions(keys, tss, index);
    var s := FreshState(nextKey);
    RunError(s, keys, tss, ds, cdate);
    RunBuckets(s, keys, tss, ds, cdate);
    var o := Run(s, keys, tss, index, cdate);
    forall k | k in tss && o.error.None?
      ensures && Decide(tss[k], index).Success?
              && BucketCount(o.state.reports, k) == 1
              && EntryShows(o.state.reports, k, tss[k], Decide(tss[k], index).value)
    {
      var i :| 0 <= i < |keys| && keys[i] == k;
      DecisionsAt(keys, tss, index, i);
    }
  }

  /**
   * The run context of the load script: its module-level lookups, key counter,
   * bcp rows and report dictionaries, with `cdate` fixed for the run.
   */
  class LoadRun {
    var index: Index                      // p1Lookup, m1Lookup, ..., pMTLookup, mMTLookup
    var tssLookup: Lookup
    var nextRelationshipKey: int
    var relationships: seq<Relationship>  // the lines of MGI_Relationship.bcp
    var within2KbTie: map<int, CandidatePair>
    var within2KbWithinClosest: map<int, CandidatePair>
    var within2Kb2KbClosest: map<int, CandidatePair>
    var onlyWithin: map<int, seq<int>>
    var only2Kb: map<int, seq<int>>
    var noGene: map<int, Feature>
    const cdate: string

    ghost predicate Valid()
      reads this
    {
      IndexValid(index) && LookupValid(tssLookup)
    }

    ghost function State(): RunState
      reads this
    {
      RunState(nextRelationshipKey, relationships,
        Reports(within2KbTie, within2KbWithinClosest, within2Kb2KbClosest, onlyWithin, only2Kb, noGene))
    }

    /** The module-level declarations plus the key seed of `init`, given the existing relationship keys. */
    constructor (existingKeys: seq<int>, cdate: string)
      ensures Valid()
      ensures index == EmptyIndex && tssLookup == EmptyLookup && this.cdate == cdate
      ensures State() == FreshState(NextKey(existingKeys))
    {
      EmptyIndexValid();
      index := EmptyIndex;
      tssLookup := EmptyLookup;
      var results := if existingKeys == [] then None else Some(MaxKey(existingKeys) + 1);
      if results.None? {
        nextRelationshipKey := FirstKeyOfEmptyTable;
      } else {
        nextRelationshipKey := results.value;
      }
      relationships := [];
      within2KbTie, within2KbWithinClosest, within2Kb2KbClosest := map[], map[], map[];
      onlyWithin, only2Kb, noGene := map[], map[], map[];
      this.cdate := cdate;
    }

    /** The TSS lookup loop of `init`: `tssLookup[markerKey] = [...]` for each result row. */
    method LoadTss(rows: seq<MarkerRow>)
      requires Valid()
      modifies this
      ensures Valid()
      ensures tssLookup == PutAll(old(tssLookup), rows)
      ensures index == old(index) && State() == old(State())
    {
      var i := 0;
      while i < |rows|
        invariant 0 <= i <= |rows|
        invariant Valid()
        invariant PutAll(old(tssLookup), rows) == PutAll(tssLookup, rows[i..])
        invariant index == old(index) && State() == old(State())
      {
        var r := rows[i];
        assert rows[i..][1..] == rows[i + 1..];
        tssLookup := Put(tssLookup, r.markerKey, r.feature);
        i := i + 1;
      }
    }

    /**
     * The gene lookup loop of `init`: each row goes into the lookup named by
     * its strand letter and chromosome; a name that does not exist raises.
     */
    method LoadGenes(rows: seq<MarkerRow>) returns (err: Option<LoadError>)
      requires Valid()
      modifies this
      ensures Valid()
      ensures index == FileGenes(old(index), rows).index
      ensures err == FileGenes(old(index), rows).error
      ensures tssLookup == old(tssLookup) && State() == old(State())
    {
      var i := 0;
      while i < |rows|
        invariant 0 <= i <= |rows|
        invariant Valid()
        invariant FileGenes(old(index), rows) == FileGenes(index, rows[i..])
        invariant tssLookup == old(tssLookup) && State() == old(State())
      {
        var r := rows[i];
        assert rows[i..][1..] == rows[i + 1..];
        var strand := if r.feature.strand == Some("-") then Minus else Plus;
        var prefix := PartitionKey(strand, r.feature.chromosome);
        if !HasPartition(prefix) {
          return Some(UnknownPartition(prefix));
        }
        index := index[prefix := Put(index[prefix], r.markerKey, r.feature)];
        i := i + 1;
      }
      err := None;
    }

    /**
     * The reconciliation and output part of the loop body for one decided
     * TSS: file it in its report dictionary and, unless no gene was found,
     * write its relationship row with the next key.
     */
    method RecordTss(tMarkerKey: int, t: Feature, d: Decision)
      requires d.verdict == Reconcile(d.withinBest, d.twoKbBest)
      modifies this
      ensures index == old(index) && tssLookup == old(tssLookup)
      ensures State() == Record(old(State()), tMarkerKey, t, d, cdate)
    {
      var currentWithinGenes, current2KBGenes := d.within, d.twoKb;
      var withinBest, twoKbBest := d.withinBest, d.twoKbBest;
      if withinBest.None? && twoKbBest.None? {
        assert d.verdict == Verdict(NoGene, None);
        noGene := noGene[tMarkerKey := t];
        return;
      }
      var geneKeyToUse: int;
      if withinBest.Some? && twoKbBest.Some? {
        var pair := CandidatePair(currentWithinGenes, current2KBGenes);
        if withinBest.value.distance == twoKbBest.value.distance {
          assert d.verdict == Verdict(Tie, Some(withinBest.value.key));
          within2KbTie := within2KbTie[tMarkerKey := pair];
          geneKeyToUse := withinBest.value.key;
        } else if withinBest.value.distance < twoKbBest.value.distance {
          assert d.verdict == Verdict(WithinCloser, Some(withinBest.value.key));
          within2KbWithinClosest := within2KbWithinClosest[tMarkerKey := pair];
          geneKeyToUse := withinBest.value.key;
        } else {
          assert d.verdict == Verdict(TwoKbCloser, Some(twoKbBest.value.key));
          within2Kb2KbClosest := within2Kb2KbClosest[tMarkerKey := pair];
          geneKeyToUse := twoKbBest.value.key;
        }
      } else if withinBest.Some? {
        assert d.verdict == Verdict(OnlyWithin, Some(withinBest.value.key));
        onlyWithin := onlyWithin[tMarkerKey := currentWithinGenes];
        geneKeyToUse := withinBest.value.key;
      } else {
        assert d.verdict == Verdict(Only2Kb, Some(twoKbBest.value.key));
        only2Kb := only2Kb[tMarkerKey := current2KBGenes];
        geneKeyToUse := twoKbBest.value.key;
      }
      relationships := relationships + [RelationshipRow(nextRelationshipKey, tMarkerKey, geneKeyToUse, cdate)];
      nextRelationshipKey := nextRelationshipKey + 1;
    }

    /** `findRelationships`: the TSS loop, in the TSS lookup's order. */
    method FindRelationships() returns (err: Option<LoadError>)
      requires Valid()
      modifies this
      ensures Valid() && index == old(index) && tssLookup == old(tssLookup)
      ensures forall i :: 0 <= i < |tssLookup.order| ==> tssLookup.order[i] in tssLookup.entries
      ensures RunOutcome(State(), err) == Run(old(State()), tssLookup.order, tssLookup.entries, index, cdate)
    {
      OrderInEntries(tssLookup);
      ghost var ds := Decisions(tssLookup.order, tssLookup.entries, index);
      ghost var outcome := RunWith(old(State()), tssLookup.order, tssLookup.entries, ds, cdate);
      var i := 0;
      while i < |tssLookup.order|
        invariant 0 <= i <= |tssLookup.order|
        invariant Valid() && index == old(index) && tssLookup == old(tssLookup)
        invariant outcome == RunWith(State(), tssLookup.order[i..], tssLookup.entries, ds[i..], cdate)
      {
        var tMarkerKey := tssLookup.order[i];
        var t := tssLookup.entries[tMarkerKey];
        assert tssLookup.order[i..][0] == tMarkerKey && tssLookup.order[i..][1..] == tssLookup.order[i + 1..];
        DecisionsAt(tssLookup.order, tssLookup.entries, index, i);
        assert ds[i..][0] == ds[i] == Decide(t, index) && ds[i..][1..] == ds[i + 1..];
        var decision := DecideTss(t, index);
        if decision.Failure? {
          return Some(decision.error);
        }
        var d := decision.value;
        RecordTss(tMarkerKey, t, d);
        i := i + 1;
      }
      err := None;
    }
  }
}
