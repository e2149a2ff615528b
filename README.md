# TSS-to-gene load: a Dafny model

This project models the core of the MGI TSS-to-gene load, together with the
QC script that runs before it.

The load (`bin/tssgeneload.py`) has three parts:

- It reads every transcription start site (TSS) marker into `tssLookup`.
- It files every qualifying gene into one of 48 gene lookups. Each lookup
  is keyed by a strand letter (`p` or `m`) and a chromosome.
- Its job, `findRelationships`, then goes through the TSS markers in order.
  For each TSS it:
  - computes the TSS midpoint;
  - collects the genes of the TSS's own lookup for which the midpoint lies
    within 2000 bases upstream of the gene's start site (the 2KB set): on the
    plus strand, the start site is 0 to 2000 bases past the midpoint;
  - collects the genes that contain the midpoint (the within set);
  - picks the nearest gene of each set, and reconciles the two picks into
    one of six report buckets;
  - writes an `MGI_Relationship` row to the chosen gene, with the next
    relationship key, unless no gene was found.

The QC script (`bin/tssgeneQC.py`) checks a curator's tab-separated file of
TSS ID, TSS symbol, gene ID and gene symbol. For each line, it:

- splits the line at tabs;
- stops early on fewer than four fields or an empty field;
- otherwise checks both IDs against their lookups, both symbols against the
  stored symbols, and the two stored chromosomes against each other.

Every fault is appended to an error list, and a sticky error flag stops the
count of accepted lines. The run ends in one of three ways:

- An incomplete file (fewer lines than `MIN_LINES`) exits with 3.
- Any error exits with 3 and the error list.
- Otherwise the run passes with the line count.

Modules:

- `Wrappers`: `Option` and `Result`.
- `GeneIndex`:
  - `Feature`, the attribute list `[chromosome, strand, start, end, accid, symbol]`;
  - `Lookup`, an insertion-ordered dictionary, as Python dicts are;
  - the 48 partitions and the filing of genes.
- `Matcher`:
  - the midpoint and the two distance tests;
  - candidate collection;
  - the running-minimum nearest-gene search;
  - reconciliation;
  - the per-TSS decision.
- `TssGeneLoad`: the relationship key seed and the run state. The run
  state is the key counter, the bcp rows and the six report dictionaries.
  It holds:
  - the specification function `Run`, a fold over the TSS lookup;
  - the class `LoadRun`, whose fields are the script's globals and whose
    methods are the lookup loops of `init` and `findRelationships`.
- `LoadScenarios`: concrete decisions at the edges of the candidate tests.
- `TssGeneQc`:
  - the Python 2 `string` helpers `strip`, `lower` and `split`;
  - the per-line faults;
  - the error list and counter as functions of the checked lines;
  - the QC loop and its outcome.

Facts about the code that the model makes explicit:

- The midpoint of [1000, 1010] is 1004. The code computes
  `int(1010 - 11/2)`.
- The within test is `mid - start > 0`, and the window test is
  `0 <= start - mid`. So a gene is never in both candidate sets
  (`WithinExcludesTwoKb`, `CandidatesDisjoint`).
- A gene at [1005, 2000] is a 2KB candidate at distance 1, not a within
  candidate (`UpstreamNeighbourWins`).
- A gene starting at 3005 is 2001 bases past the midpoint and is excluded
  (`WindowEdgeExcluded`).
- On an exact distance tie inside one set, the later gene in the lookup's
  order wins, because the test is `ss <= closest` (`EqualDistanceLaterWins`).
  Candidates keep the lookup's order (`CandidatesInOrder`), and filing keeps
  the order in which genes were filed (`FileGenesKeepsOrder`).
- There are 48 gene lookups: 24 chromosomes times two strand letters. Any
  other chromosome makes `eval` raise.

## Model

| member | source | states |
|---|---|---|
| GeneIndex.OrderInEntries | bin/tssgeneload.py:355-356 | iterating a dictionary visits only keys it holds, so `tssLookup[tMarkerKey]` never fails |
| GeneIndex.Put | bin/tssgeneload.py:223 | dictionary assignment replaces the value, keeps an existing key's place in the iteration order and appends a new key; the dictionary stays duplicate-free |
| GeneIndex.PutAll | bin/tssgeneload.py:220-223 | filling a dictionary row by row keeps it a well-formed ordered dictionary |
| GeneIndex.PutAllKeys | bin/tssgeneload.py:220-223 | after the TSS loop, the keys are exactly the old keys plus the keys of the rows |
| GeneIndex.PutAllUntouched | bin/tssgeneload.py:220-223 | a key that no row assigns keeps its old attributes |
| GeneIndex.PutAllLastWins | bin/tssgeneload.py:220-223 | a key holds the attributes of the last row that assigned it |
| GeneIndex.PutAllKeepsOrder | bin/tssgeneload.py:220-223 | keys already present keep their positions in the iteration order |
| GeneIndex.EmptyIndexValid | bin/tssgeneload.py:93-140 | the declared gene lookups are exactly the 48 (strand letter, chromosome) names, all empty |
| GeneIndex.StrandClassOf | bin/tssgeneload.py:250-252 | definition (also lines 369-371 for the TSS): strand letter `m` exactly when the strand is `'-'`, otherwise `p`, including a null strand |
| GeneIndex.KeyOf | bin/tssgeneload.py:250-253 | definition (also lines 369-372 for the TSS): the lookup name `'%s%sLookup' % (strand letter, chromosome)` as a pair |
| GeneIndex.HasPartition | bin/tssgeneload.py:93-140 | definition (the `eval` at lines 254 and 373): `eval` finds a lookup exactly for the 24 declared chromosomes, with either strand letter |
| GeneIndex.FileGene | bin/tssgeneload.py:250-255 | a gene row raises exactly when its chromosome has no lookup; otherwise it lands in the lookup of its own strand letter and chromosome, and every other lookup is unchanged |
| GeneIndex.FileGenes | bin/tssgeneload.py:247-255 | filing rows keeps every marker in the lookup named by its own strand letter and chromosome |
| GeneIndex.FileGenesError | bin/tssgeneload.py:247-255 | the gene loop fails exactly when some row's chromosome has no lookup, and then with the name of the first such row |
| GeneIndex.FileGenesKeeps | bin/tssgeneload.py:254-255 | filing never removes a marker from a lookup |
| GeneIndex.FileGenesKeepsOrder | bin/tssgeneload.py:247-255 | filing keeps every lookup's iteration order: markers already filed keep their positions |
| GeneIndex.FileGenesComplete | bin/tssgeneload.py:247-255 | after a complete gene loop, every row's marker is in the lookup of its own key |
| GeneIndex.FileGenesSound | bin/tssgeneload.py:247-255 | every marker in a lookup was there before or came from a row with that lookup's strand letter and chromosome |
| Matcher.Midpoint | bin/tssgeneload.py:366 | `int(tEnd - ((tEnd - tStart + 1) / 2))` with truncation toward zero; it equals the ceiling form when not negative and lies in [start - 1, end - 1], one base below the centre of an odd-length span |
| Matcher.UpstreamDistance | bin/tssgeneload.py:390-393 | definition (also the 2KB `ss` at lines 448-451): `gStart - tMidPoint` on a `'+'` gene, otherwise `tMidPoint - gEnd` |
| Matcher.WithinDistance | bin/tssgeneload.py:427-430 | definition: `tMidPoint - gStart` on a `'+'` gene, otherwise `gEnd - tMidPoint` |
| Matcher.InTwoKb | bin/tssgeneload.py:394 | definition: `startsite >= 0 and startsite <= 2000` |
| Matcher.InWithin | bin/tssgeneload.py:406-412 | definition: `tMidPoint - gStart > 0 and tMidPoint <= gEnd` on a `'+'` gene, otherwise `gEnd - tMidPoint > 0 and tMidPoint >= gStart` |
| Matcher.WithinExcludesTwoKb | bin/tssgeneload.py:390-412 | a gene that contains the midpoint is at positive within-distance and never within the 2KB window; the two distances are opposite |
| Matcher.ReachIsContiguous | bin/tssgeneload.py:390-412 | the two tests together cover exactly the stretch from 2000 bases upstream of the start site to the far end of the gene |
| Matcher.Candidates | bin/tssgeneload.py:377-412 | candidates are keys of the lookup |
| Matcher.CandidatesInOrder | bin/tssgeneload.py:375-412 | the candidates are the lookup's keys at strictly increasing positions, so the candidate dictionaries keep the lookup's iteration order, which the nearest-gene loops iterate |
| Matcher.CandidatesExactly | bin/tssgeneload.py:377-412 | a gene is a candidate of a kind if and only if it is in the lookup and passes that kind's test |
| Matcher.CandidatesDistinct | bin/tssgeneload.py:375-412 | candidate dictionaries hold each gene once |
| Matcher.CandidatesDisjoint | bin/tssgeneload.py:390-412 | no gene is both a within and a 2KB candidate |
| Matcher.CollectCandidates | bin/tssgeneload.py:375-412 | the gene loop of one TSS fills the two candidate dictionaries with exactly the genes passing each test |
| Matcher.NearestIsLastMinimum | bin/tssgeneload.py:421-460 | the search yields nothing if and only if there are no candidates; otherwise a candidate at minimal distance that every later candidate is strictly farther than |
| Matcher.Nearest | bin/tssgeneload.py:421-460 | definition: the running minimum over the candidates in order, starting from the first and replacing on `ss <= closest`; its meaning is NearestIsLastMinimum |
| Matcher.SelectNearest | bin/tssgeneload.py:421-460 | the closest-start-site loop returns the running minimum with replacement on `ss <= closest`, that is, the last nearest candidate |
| Matcher.Reconcile | bin/tssgeneload.py:464-494 | NoGene if and only if neither set has a best gene; otherwise the chosen gene is the best of one set and no farther than the other set's best, with ties going to within |
| Matcher.ReconcileTable | bin/tssgeneload.py:466-494 | row by row: NoGene, OnlyWithin, Only2Kb, Tie (within gene), WithinCloser, TwoKbCloser (2KB gene) |
| Matcher.Match | bin/tssgeneload.py:366-460 | definition: the midpoint, both candidate sets, both best genes and their reconciliation for one TSS against its lookup; its meaning is DecideMeaning |
| Matcher.Decide | bin/tssgeneload.py:369-373 | a TSS's decision raises exactly when its strand letter and chromosome name no lookup, with that name |
| Matcher.DecideMeaning | bin/tssgeneload.py:366-460 | the candidate sets are exactly the genes of the TSS's own lookup passing each test, on its chromosome and strand letter, and disjoint; each best gene is the last nearest candidate of its set; the verdict is their reconciliation |
| Matcher.DecideTss | bin/tssgeneload.py:366-460 | the per-TSS part of the loop body computes the decision (or the raise) of `Decide` |
| LoadScenarios.MidpointOfExample | bin/tssgeneload.py:366 | the TSS [1000, 1010] has midpoint 1004 |
| LoadScenarios.UpstreamNeighbourWins | bin/tssgeneload.py:366-494 | genes at [1005, 2000] and [2900, 3000] are both 2KB candidates, at distances 1 and 1896, so the first is chosen from Only2Kb |
| LoadScenarios.WindowEdgeExcluded | bin/tssgeneload.py:390-396 | a plus-strand gene starting 2001 bases above the midpoint is no candidate, so the TSS is NoGene |
| LoadScenarios.WindowEdgeIncluded | bin/tssgeneload.py:390-396 | a plus-strand gene starting exactly 2000 bases above the midpoint is a 2KB candidate |
| LoadScenarios.EqualDistanceLaterWins | bin/tssgeneload.py:442-460 | of two 2KB candidates at equal distance, the later one in the lookup's order is chosen |
| LoadScenarios.CloserUpstreamBeatsWithin | bin/tssgeneload.py:477-486 | within distance 5 against 2KB distance 3 gives TwoKbCloser and the 2KB gene |
| LoadScenarios.TieGoesToWithin | bin/tssgeneload.py:472-476 | equal distances give Tie and the within gene |
| TssGeneLoad.RelationshipRow | bin/tssgeneload.py:500-501 | the 12-field bcp line: the given relationship key, object1 the TSS, object2 the gene, and the run's fixed category 1008, term 41697543, qualifier 11391898, evidence 17396909, reference 209979, user 1604 for both users and `cdate` for both dates |
| TssGeneLoad.MaxKey | bin/tssgeneload.py:194 | `max(_Relationship_key)` is an existing key that no key exceeds |
| TssGeneLoad.NextKey | bin/tssgeneload.py:194-198 | the seed is 1000 for an empty table, and otherwise one past the largest existing key, above every existing key |
| TssGeneLoad.FileReport | bin/tssgeneload.py:466-494 | definition: the TSS is added to the one report dictionary its bucket names, with the candidate keys (both sets for the three both-sets buckets) or, for NoGene, the TSS attributes; its meaning is FileReportFiles and FileReportKeepsOthers |
| TssGeneLoad.Record | bin/tssgeneload.py:464-503 | definition: file the report entry, then, unless NoGene, append the row with the current key and increment the key; its meaning is RecordRows |
| TssGeneLoad.Decisions | bin/tssgeneload.py:355-460 | one decision per TSS in loop order; its meaning is DecisionsAt |
| TssGeneLoad.DecisionsAt | bin/tssgeneload.py:355-373 | the decision at each position of the TSS order is that of the TSS with that key |
| TssGeneLoad.RunWith | bin/tssgeneload.py:355-503 | definition: `Record` for each decided TSS in turn, stopping with the error at the first raise; its meaning is RunNumbersRows, RunWritesLinks, RunError and RunBuckets |
| TssGeneLoad.Run | bin/tssgeneload.py:347-505 | definition: `RunWith` over the decisions of the TSS keys in loop order; its meaning is the RunFromFreshState lemmas |
| TssGeneLoad.Links | bin/tssgeneload.py:497-501 | definition: the (object1, object2) pairs of the TSSs with a chosen gene, in loop order, up to the first raise |
| TssGeneLoad.FileReportFiles | bin/tssgeneload.py:466-494 | filing a TSS that is in no bucket puts it in exactly one bucket, the one its verdict names, with that bucket's entry |
| TssGeneLoad.FileReportKeepsOthers | bin/tssgeneload.py:466-494 | filing a TSS leaves every other TSS's report entries alone |
| TssGeneLoad.RecordRows | bin/tssgeneload.py:497-503 | a TSS writes one row with the current key, and advances the key, exactly when a gene was chosen |
| TssGeneLoad.RunNumbersRows | bin/tssgeneload.py:497-503 | the run extends the rows, gives them the consecutive keys from the counter and the run's fixed metadata, and leaves the counter one past the last key used |
| TssGeneLoad.RunWritesLinks | bin/tssgeneload.py:497-501 | row by row, object1 is the TSS and object2 its chosen gene, in TSS order, up to the first TSS that raised |
| TssGeneLoad.RunError | bin/tssgeneload.py:355-373 | the run ends early exactly when a decision raised, and then with the error of the first one |
| TssGeneLoad.RunBuckets | bin/tssgeneload.py:464-494 | a run that ends without error puts every listed TSS in exactly one bucket with its decision's entry; keys outside the list keep their entries |
| TssGeneLoad.RunFromFreshStateCount | bin/tssgeneload.py:347-505 | from the initial globals, the run writes one row per TSS with a gene, and the counter ends that many keys past the seed |
| TssGeneLoad.RunFromFreshStateRows | bin/tssgeneload.py:347-505 | row i is relationship i of the run, in TSS order, with key seed + i |
| TssGeneLoad.RunFromFreshStateError | bin/tssgeneload.py:369-373 | a run raises if and only if some TSS's chromosome has no gene lookup; the error names the missing lookup of the first such TSS in loop order, and every earlier TSS had a lookup |
| TssGeneLoad.RunFromFreshStateBuckets | bin/tssgeneload.py:464-494 | a complete run leaves every TSS in exactly one report bucket, the one its decision names |
| TssGeneLoad.LoadRun.constructor | bin/tssgeneload.py:84-198 | the module-level state: empty lookups and reports, no rows, and the key counter seeded by the `max + 1` query or 1000 |
| TssGeneLoad.LoadRun.LoadTss | bin/tssgeneload.py:220-223 | the TSS loop of `init` leaves `tssLookup` equal to `PutAll` of the rows, with everything else unchanged |
| TssGeneLoad.LoadRun.LoadGenes | bin/tssgeneload.py:247-255 | the gene loop of `init` yields the lookups and the error of `FileGenes` |
| TssGeneLoad.LoadRun.RecordTss | bin/tssgeneload.py:464-503 | the bucket branches and the row write of one TSS move the globals to `Record` of the old state |
| TssGeneLoad.LoadRun.FindRelationships | bin/tssgeneload.py:347-505 | the loop leaves the globals and the raised error equal to the fold `Run` over the TSS lookup in order |
| TssGeneQc.IsWhitespace | bin/tssgeneQC.py:195 | definition: the six characters space, tab, newline, carriage return, vertical tab and form feed, the C-locale whitespace that Python 2 `string.strip` cuts (also at lines 205-208) |
| TssGeneQc.Strip | bin/tssgeneQC.py:195 | `string.strip` returns a result that neither starts nor ends in whitespace, and is empty exactly when the line is all whitespace |
| TssGeneQc.StripIsStretch | bin/tssgeneQC.py:195 | the stripped line is a contiguous stretch of the line with only whitespace cut from either end |
| TssGeneQc.TrimLeft | bin/tssgeneQC.py:195 | the result is a suffix of the string that does not start with whitespace, and everything cut off is whitespace |
| TssGeneQc.TrimRight | bin/tssgeneQC.py:195 | the result is a prefix of the string that does not end with whitespace, and everything cut off is whitespace |
| TssGeneQc.Lower | bin/tssgeneQC.py:216 | `string.lower` keeps the length, maps each character through ASCII lower-casing, and leaves no upper-case letter |
| TssGeneQc.Split | bin/tssgeneQC.py:197 | `string.split(line, '\t')` gives at least one piece, no piece contains a tab, and joining the pieces restores the line |
| TssGeneQc.SplitCount | bin/tssgeneQC.py:197-199 | a line has one more field than it has tabs |
| TssGeneQc.FieldsOf | bin/tssgeneQC.py:205-208 | definition: the first four tokens, each stripped, as TSS ID, TSS symbol, gene ID and gene symbol |
| TssGeneQc.HasEmptyField | bin/tssgeneQC.py:210 | definition: one of the four stripped fields is empty |
| TssGeneQc.TssFaults | bin/tssgeneQC.py:216-224 | definition: InvalidTssId if the lower-cased ID is unknown, else TssSymbolMismatch if the stored symbol is not the lower-cased symbol, else nothing; its meaning is FieldFaultsIds |
| TssGeneQc.GeneFaults | bin/tssgeneQC.py:226-234 | definition: the same two checks for the gene ID and symbol against the marker lookup; its meaning is FieldFaultsIds |
| TssGeneQc.ChromosomeFaults | bin/tssgeneQC.py:236-242 | definition: ChromosomeMismatch with both stored chromosomes when both IDs are known and the chromosomes differ; its meaning is FieldFaultsChromosome |
| TssGeneQc.FieldFaults | bin/tssgeneQC.py:216-242 | definition: TSS faults, then gene faults, then the chromosome fault, in that order |
| TssGeneQc.LineFaults | bin/tssgeneQC.py:197-242 | definition: LessThan4Fields for fewer than four tab-separated fields, else MissingField if a stripped field is empty, else the field faults; its meaning is LineFaultsMeaning |
| TssGeneQc.LineFaultsMeaning | bin/tssgeneQC.py:197-214 | fewer than four fields (fewer than three tabs) gives only LessThan4Fields; an empty stripped field among the first four gives only MissingField; otherwise the line gets the ID and chromosome checks |
| TssGeneQc.FieldFaultsIds | bin/tssgeneQC.py:216-234 | each ID fault fires if and only if its lower-cased ID is unknown, or its stored symbol differs from the lower-cased symbol |
| TssGeneQc.FieldFaultsChromosome | bin/tssgeneQC.py:236-242 | the chromosome fault fires if and only if both IDs are known and their stored chromosomes differ; never an early fault; at most three faults |
| TssGeneQc.CheckAllAt | bin/tssgeneQC.py:190-242 | the check result of line i is that of the i-th line of the file |
| TssGeneQc.Check | bin/tssgeneQC.py:195-242 | definition: a line's faults paired with the stripped line that its error entries print |
| TssGeneQc.Tag | bin/tssgeneQC.py:200-241 | each fault of a line becomes one error entry carrying that fault, the line number and the stripped line, in fault order, as the `'Line %s: ...'` entries do |
| TssGeneQc.CheckAll | bin/tssgeneQC.py:190-242 | one check result (faults and stripped line) per line of the file; its meaning is CheckAllAt |
| TssGeneQc.ErrorsOf | bin/tssgeneQC.py:190-242 | definition: the tagged faults of each line in turn, numbered from 1; its meaning is ErrorsEmpty, ErrorsReportLines, ErrorsInLineOrder and ErrorsComplete |
| TssGeneQc.AcceptedOf | bin/tssgeneQC.py:244-247 | definition: the counter grows by one for each line while no line so far has failed; its meaning is AcceptedIsCleanPrefix |
| TssGeneQc.ErrorsEmpty | bin/tssgeneQC.py:190-247 | the error list is empty if and only if every line passes |
| TssGeneQc.AcceptedIsCleanPrefix | bin/tssgeneQC.py:244-247 | `counter` is the number of lines before the first failing line, so it reaches the line count exactly when no line fails |
| TssGeneQc.ErrorsReportLines | bin/tssgeneQC.py:190-242 | every error names a line of the file and carries that line stripped and one of its faults |
| TssGeneQc.ErrorsInLineOrder | bin/tssgeneQC.py:190-242 | errors come in line order |
| TssGeneQc.ErrorsComplete | bin/tssgeneQC.py:190-242 | every fault of every line is reported with its 1-based line number and stripped line |
| TssGeneQc.ExitCode | bin/tssgeneQC.py:253-273 | the run exits 0 exactly when it passes, and 3 otherwise |
| TssGeneQc.CheckFields | bin/tssgeneQC.py:216-242 | the ID and chromosome checks append exactly the tagged faults of those checks, in report order |
| TssGeneQc.CheckLine | bin/tssgeneQC.py:192-242 | the checks of one line append exactly its tagged faults, with the early stops |
| TssGeneQc.CheckLineAt | bin/tssgeneQC.py:190-242 | the loop body for line i appends exactly the tagged faults of the i-th checked line, numbered i + 1 |
| TssGeneQc.FileVerdict | bin/tssgeneQC.py:244-247 | some line fails if and only if the count stops short, and then the error list is not empty |
| TssGeneQc.ScanLines | bin/tssgeneQC.py:188-247 | the line loop's error list, sticky flag and counter are those of the checked lines |
| TssGeneQc.RunQcChecks | bin/tssgeneQC.py:184-273 | a short file is IncompleteFile whatever its errors; otherwise any failing line gives FatalErrors with the non-empty error list; otherwise Passed with every line counted |

## Left out

- The database is not modelled. The queries' result rows, the existing
  relationship keys and `cdate` are inputs. The SQL filters (organism,
  marker status and type, non-null coordinates) are not modelled.
- File I/O is not modelled. Opening, reading and writing the bcp and report
  files, `writeReports`, the report formatting and closing the files are
  left out. The relationship rows, the report dictionaries and the QC error
  list are values.
- The execution of the bcp and delete commands, and the environment and
  configuration variables, are left out. `MIN_LINES` and the lookups are
  parameters of `RunQcChecks`.
- `sys.exit` is modelled as a value. A Python exception from `eval` on an
  unknown lookup name becomes a `LoadError` that ends the loop. An exit
  status becomes a `QcOutcome` and `ExitCode`.
- Matcher.Midpoint: the exact rational value is truncated, so Python's
  float rounding is not modelled. It matters from 2^52 on: for
  start = end = 2^52 + 2, Python rounds 2^52 + 1.5 to 2^52 + 2, where
  `Midpoint` gives 2^52 + 1.
- The report dictionaries hold candidate marker keys in lookup order, rather
  than the attribute lists the script stores. The attributes are the
  lookup's entries for those keys.
- QC errors are structured values (fault, line number, stripped line), not
  the exact message text, blank lines and chromosome lines the script
  appends.
- The QC lookups are inputs; the lower-casing of IDs and symbols in the QC
  `init` is not modelled. The input file is its lines, newline included.
- TssGeneLoad.RunFromFreshStateRows: it states row contents only for
  indices below the row count. The equality of the counts is in
  RunFromFreshStateCount.
- TssGeneQc.Lower: it is modelled for ASCII letters only, as in the C
  locale. Locale-dependent lower-casing is not modelled.
