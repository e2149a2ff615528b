/**
 * The marker lookups of the TSS-to-gene load: the TSS lookup and the
 * per-(strand, chromosome) gene lookups `p1Lookup`, `m1Lookup`, ..., `mMTLookup`,
 * all of them Python dictionaries {markerKey: attributes} filled row by row
 * from the marker queries.
 */
module GeneIndex {
  import opened Wrappers

  /** A marker's location attributes, the list [chromosome, strand, start, end, accid, symbol]. */
  datatype Feature = Feature(
    chromosome: string,
    strand: Option<string>,  // None is a SQL null strand
    start: int,
    end: int,
    accid: string,
    symbol: string)

  /** One result row of a marker query: the marker key and its attributes. */
  datatype MarkerRow = MarkerRow(markerKey: int, feature: Feature)

  /**
   * An insertion-ordered dictionary {markerKey: Feature}, as a Python 3 dict:
   * `order` lists the keys in the order they were first assigned.
   */
  datatype Lookup = Lookup(order: seq<int>, entries: map<int, Feature>)

  const EmptyLookup: Lookup := Lookup([], map[])

  ghost predicate LookupValid(l: Lookup) {
    && (forall i, j :: 0 <= i < j < |l.order| ==> l.order[i] != l.order[j])
    && (forall k :: k in l.entries <==> k in l.order)
  }

  /** Iterating a dictionary visits only its keys. */
  lemma OrderInEntries(l: Lookup)
    requires LookupValid(l)
    ensures forall i :: 0 <= i < |l.order| ==> l.order[i] in l.entries
  {
    forall i | 0 <= i < |l.order| ensures l.order[i] in l.entries {
      assert l.order[i] in l.order;
    }
  }

  /**
   * Dictionary assignment `l[key] = f`: the value is replaced, a key already
   * present keeps its place in the iteration order, a new key goes last.
   */
  function Put(l: Lookup, key: int, f: Feature): (r: Lookup)
    requires LookupValid(l)
    ensures LookupValid(r)
    ensures r.entries == l.entries[key := f]
    ensures |r.order| == |l.order| + (if key in l.entries then 0 else 1)
    ensures forall i :: 0 <= i < |l.order| ==> r.order[i] == l.order[i]
    ensures key in r.order
  {
    if key in l.entries then Lookup(l.order, l.entries[key := f])
    else Lookup(l.order + [key], l.entries[key := f])
  }

  /** The dictionary after assigning every row in turn (`tssLookup[markerKey] = [...]`). */
  function PutAll(l: Lookup, rows: seq<MarkerRow>): (r: Lookup)
    requires LookupValid(l)
    ensures LookupValid(r)
    decreases |rows|
  {
    if rows == [] then l
    else PutAll(Put(l, rows[0].markerKey, rows[0].feature), rows[1..])
  }

  /** Filling a dictionary from rows: its keys are the old keys and the rows' keys, and no others. */
  lemma {:induction false} PutAllKeys(l: Lookup, rows: seq<MarkerRow>)
    requires LookupValid(l)
    ensures forall k :: k in PutAll(l, rows).entries <==>
      k in l.entries || exists j :: 0 <= j < |rows| && rows[j].markerKey == k
    decreases |rows|
  {
    if rows != [] {
      var l1 := Put(l, rows[0].markerKey, rows[0].feature);
      var rest := rows[1..];
      PutAllKeys(l1, rest);
      var r := PutAll(l, rows);
      assert r == PutAll(l1, rest);
      forall k | k in r.entries
        ensures k in l.entries || exists j :: 0 <= j < |rows| && rows[j].markerKey == k
      {
        if k !in l1.entries {
          var j' :| 0 <= j' < |rest| && rest[j'].markerKey == k;
          assert rows[j' + 1].markerKey == k;
        } else if k !in l.entries {
          assert rows[0].markerKey == k;
        }
      }
      forall k | k in l.entries || exists j :: 0 <= j < |rows| && rows[j].markerKey == k
        ensures k in r.entries
      {
        if k !in l.entries && k != rows[0].markerKey {
          var j :| 0 <= j < |rows| && rows[j].markerKey == k;
          assert rest[j - 1].markerKey == k;
        }
      }
    }
  }

  /** A key that no row assigns keeps its old value. */
  lemma {:induction false} PutAllUntouched(l: Lookup, rows: seq<MarkerRow>, k: int)
    requires LookupValid(l)
    requires k in l.entries
    requires forall j :: 0 <= j < |rows| ==> rows[j].markerKey != k
    ensures k in PutAll(l, rows).entries && PutAll(l, rows).entries[k] == l.entries[k]
    decreases |rows|
  {
    if rows != [] {
      var rest := rows[1..];
      assert rows[0].markerKey != k;
      forall j | 0 <= j < |rest| ensures rest[j].markerKey != k {
        assert rest[j] == rows[j + 1];
      }
      PutAllUntouched(Put(l, rows[0].markerKey, rows[0].feature), rest, k);
    }
  }

  /** A key holds the attributes of the LAST row that assigned it. */
  lemma {:induction false} PutAllLastWins(l: Lookup, rows: seq<MarkerRow>, j: int)
    requires LookupValid(l)
    requires 0 <= j < |rows|
    requires forall j' :: j < j' < |rows| ==> rows[j'].markerKey != rows[j].markerKey
    ensures rows[j].markerKey in PutAll(l, rows).entries
    ensures PutAll(l, rows).entries[rows[j].markerKey] == rows[j].feature
    decreases |rows|
  {
    var l1 := Put(l, rows[0].markerKey, rows[0].feature);
    var rest := rows[1..];
    if j > 0 {
      assert rest[j - 1] == rows[j];
      forall j' | j - 1 < j' < |rest| ensures rest[j'].markerKey != rest[j - 1].markerKey {
        assert rest[j'] == rows[j' + 1];
      }
      PutAllLastWins(l1, rest, j - 1);
    } else {
      forall j' | 0 <= j' < |rest| ensures rest[j'].markerKey != rows[0].markerKey {
        assert rest[j'] == rows[j' + 1];
      }
      PutAllUntouched(l1, rest, rows[0].markerKey);
    }
  }

  /** Keys already present keep their positions in the iteration order. */
  lemma {:induction false} PutAllKeepsOrder(l: Lookup, rows: seq<MarkerRow>)
    requires LookupValid(l)
    ensures |PutAll(l, rows).order| >= |l.order|
    ensures forall i :: 0 <= i < |l.order| ==> PutAll(l, rows).order[i] == l.order[i]
    decreases |rows|
  {
    if rows != [] {
      PutAllKeepsOrder(Put(l, rows[0].markerKey, rows[0].feature), rows[1..]);
    }
  }

  /** The lookup-name prefix letter: 'm' for a '-' strand, 'p' for anything else (null included). */
  datatype StrandClass = Plus | Minus

  function StrandClassOf(strand: Option<string>): StrandClass {
    if strand == Some("-") then Minus else Plus
  }

  /** Which of the `<p|m><chromosome>Lookup` dictionaries a marker belongs to. */
  datatype PartitionKey = PartitionKey(strandClass: StrandClass, chromosome: string)

  function KeyOf(f: Feature): PartitionKey {
    PartitionKey(StrandClassOf(f.strand), f.chromosome)
  }

  /** The chromosomes for which the script declares a pair of gene lookups. */
  const Chromosomes: set<string> := {
    "1", "2", "3", "4", "5", "6", "7", "8", "9", "10", "11", "12", "13", "14",
    "15", "16", "17", "18", "19", "X", "Y", "XY", "UN", "MT"
  }

  /** The lookup named by the key exists; the name of any other key raises in `eval`. */
  predicate HasPartition(k: PartitionKey) {
    k.chromosome in Chromosomes
  }

  /** The 48 gene lookups, keyed by (strand class, chromosome). */
  type Index = map<PartitionKey, Lookup>

  /** Every lookup exists, is a dictionary, and holds only markers filed under its own key. */
  ghost predicate IndexValid(index: Index) {
    && (forall k :: k in index <==> HasPartition(k))
    && (forall k :: k in index ==> LookupValid(index[k]))
    && (forall k, m :: k in index && m in index[k].entries ==> KeyOf(index[k].entries[m]) == k)
  }

  /** The names of the 48 gene lookups. */
  const PartitionKeys: set<PartitionKey> := set s: StrandClass, c | c in Chromosomes :: PartitionKey(s, c)

  /** The gene lookups as declared at module level, all empty. */
  const EmptyIndex: Index := map k | k in PartitionKeys :: EmptyLookup

  lemma EmptyIndexValid()
    ensures IndexValid(EmptyIndex)
    ensures forall k :: k in EmptyIndex ==> EmptyIndex[k] == EmptyLookup
  {
    forall k | HasPartition(k) ensures k in EmptyIndex {
      assert k == PartitionKey(k.strandClass, k.chromosome);
    }
  }

  /** Raised by `eval('%sLookup' % prefix)` when no lookup of that name exists. */
  datatype LoadError = UnknownPartition(key: PartitionKey)

  /** Files one gene row under the lookup of its own strand class and chromosome. */
  function FileGene(index: Index, row: MarkerRow): (r: Result<Index, LoadError>)
    requires IndexValid(index)
    ensures r.Failure? <==> !HasPartition(KeyOf(row.feature))
    ensures r.Failure? ==> r.error == UnknownPartition(KeyOf(row.feature))
    ensures r.Success? ==> IndexValid(r.value)
    ensures r.Success? ==> forall k :: k in index && k != KeyOf(row.feature) ==> r.value[k] == index[k]
    ensures r.Success? ==> r.value[KeyOf(row.feature)] == Put(index[KeyOf(row.feature)], row.markerKey, row.feature)
  {
    var key := KeyOf(row.feature);
    if !HasPartition(key) then Failure(UnknownPartition(key))
    else Success(index[key := Put(index[key], row.markerKey, row.feature)])
  }

  /** The lookups reached by filing rows in order, and the error that stopped it, if any. */
  datatype Filed = Filed(index: Index, error: Option<LoadError>)

  function FileGenes(index: Index, rows: seq<MarkerRow>): (r: Filed)
    requires IndexValid(index)
    ensures IndexValid(r.index)
  {
    if rows == [] then Filed(index, None)
    else match FileGene(index, rows[0])
      case Failure(e) => Filed(index, Some(e))
      case Success(next) => FileGenes(next, rows[1..])
  }

  /** Filing fails exactly at the first row whose chromosome has no lookup. */
  lemma {:induction false} FileGenesError(index: Index, rows: seq<MarkerRow>)
    requires IndexValid(index)
    ensures FileGenes(index, rows).error.None? <==>
      forall j :: 0 <= j < |rows| ==> HasPartition(KeyOf(rows[j].feature))
    ensures FileGenes(index, rows).error.Some? ==>
      exists j :: 0 <= j < |rows| && !HasPartition(KeyOf(rows[j].feature))
        && FileGenes(index, rows).error.value == UnknownPartition(KeyOf(rows[j].feature))
        && forall j' :: 0 <= j' < j ==> HasPartition(KeyOf(rows[j'].feature))
  {
    if rows != [] && HasPartition(KeyOf(rows[0].feature)) {
      var next := FileGene(index, rows[0]).value;
      var rest := rows[1..];
      FileGenesError(next, rest);
      var r := FileGenes(index, rows);
      assert r == FileGenes(next, rest);
      if r.error.None? {
        forall j | 0 <= j < |rows| ensures HasPartition(KeyOf(rows[j].feature)) {
          if j > 0 { assert rows[j] == rest[j - 1]; }
        }
      } else {
        var j :| 0 <= j < |rest| && !HasPartition(KeyOf(rest[j].feature))
          && r.error.value == UnknownPartition(KeyOf(rest[j].feature))
          && forall j' :: 0 <= j' < j ==> HasPartition(KeyOf(rest[j'].feature));
        assert rows[j + 1] == rest[j];
        forall j' | 0 <= j' < j + 1 ensures HasPartition(KeyOf(rows[j'].feature)) {
          if j' > 0 { assert rows[j'] == rest[j' - 1]; }
        }
      }
    }
  }

  /** Filing never removes a marker from a lookup. */
  lemma {:induction false} FileGenesKeeps(index: Index, rows: seq<MarkerRow>)
    requires IndexValid(index)
    ensures forall k, m :: k in index && m in index[k].entries ==> m in FileGenes(index, rows).index[k].entries
  {
    if rows != [] && HasPartition(KeyOf(rows[0].feature)) {
      FileGenesKeeps(FileGene(index, rows[0]).value, rows[1..]);
    }
  }

  /** b extends a's iteration order: a's keys keep their positions. */
  ghost predicate OrderPrefix(a: Lookup, b: Lookup) {
    |a.order| <= |b.order| && forall i :: 0 <= i < |a.order| ==> b.order[i] == a.order[i]
  }

  /** Filing keeps every lookup's iteration order: markers already filed keep their positions. */
  lemma {:induction false} FileGenesKeepsOrder(index: Index, rows: seq<MarkerRow>)
    requires IndexValid(index)
    ensures forall k :: k in index ==> k in FileGenes(index, rows).index && OrderPrefix(index[k], FileGenes(index, rows).index[k])
  {
    if rows != [] && HasPartition(KeyOf(rows[0].feature)) {
      var next := FileGene(index, rows[0]).value;
      FileGenesKeepsOrder(next, rows[1..]);
      var r := FileGenes(index, rows);
      assert r == FileGenes(next, rows[1..]);
      forall k | k in index ensures k in r.index && OrderPrefix(index[k], r.index[k]) {
        assert k in next;
        assert OrderPrefix(index[k], next[k]);
        assert OrderPrefix(next[k], r.index[k]);
      }
    }
  }

  /** After filing without error, each row's marker is in the lookup of its own key. */
  lemma {:induction false} FileGenesComplete(index: Index, rows: seq<MarkerRow>)
    requires IndexValid(index)
    ensures FileGenes(index, rows).error.None? ==>
      forall j :: 0 <= j < |rows| ==>
        HasPartition(KeyOf(rows[j].feature)) &&
        rows[j].markerKey in FileGenes(index, rows).index[KeyOf(rows[j].feature)].entries
  {
    if rows != [] && HasPartition(KeyOf(rows[0].feature)) {
      var next := FileGene(index, rows[0]).value;
      var rest := rows[1..];
      FileGenesComplete(next, rest);
      FileGenesKeeps(next, rest);
      var r := FileGenes(index, rows);
      assert r == FileGenes(next, rest);
      var k0 := KeyOf(rows[0].feature);
      assert rows[0].markerKey in next[k0].entries;
      if r.error.None? {
        FiledFirstAndRest(rows, r.index);
      }
    }
  }

  /** Row 0 plus rows 1.. filed in `fin` make every row filed in `fin`. */
  lemma FiledFirstAndRest(rows: seq<MarkerRow>, fin: Index)
    requires rows != []
    requires forall k :: HasPartition(k) ==> k in fin
    requires HasPartition(KeyOf(rows[0].feature)) && rows[0].markerKey in fin[KeyOf(rows[0].feature)].entries
    requires forall j :: 0 <= j < |rows[1..]| ==>
      HasPartition(KeyOf(rows[1..][j].feature)) && rows[1..][j].markerKey in fin[KeyOf(rows[1..][j].feature)].entries
    ensures forall j :: 0 <= j < |rows| ==>
      HasPartition(KeyOf(rows[j].feature)) && rows[j].markerKey in fin[KeyOf(rows[j].feature)].entries
  {
    forall j | 0 < j < |rows|
      ensures HasPartition(KeyOf(rows[j].feature)) && rows[j].markerKey in fin[KeyOf(rows[j].feature)].entries
    {
      assert rows[j] == rows[1..][j - 1];
    }
  }

  /** Every marker of a lookup was there before or came from a row filed under that lookup's key. */
  lemma {:induction false} FileGenesSound(index: Index, rows: seq<MarkerRow>)
    requires IndexValid(index)
    ensures forall k, m :: k in FileGenes(index, rows).index && m in FileGenes(index, rows).index[k].entries ==>
      m in index[k].entries || exists j :: 0 <= j < |rows| && rows[j].markerKey == m && KeyOf(rows[j].feature) == k
  {
    if rows != [] && HasPartition(KeyOf(rows[0].feature)) {
      var next := FileGene(index, rows[0]).value;
      var rest := rows[1..];
      FileGenesSound(next, rest);
      var r := FileGenes(index, rows);
      assert r == FileGenes(next, rest);
      forall k, m | k in r.index && m in r.index[k].entries
        ensures m in index[k].entries || exists j :: 0 <= j < |rows| && rows[j].markerKey == m && KeyOf(rows[j].feature) == k
      {
        if m !in next[k].entries {
          var j :| 0 <= j < |rest| && rest[j].markerKey == m && KeyOf(rest[j].feature) == k;
          assert rows[j + 1] == rest[j];
        } else if m !in index[k].entries {
          assert rows[0].markerKey == m && KeyOf(rows[0].feature) == k;
        }
      }
    }
  }
}
