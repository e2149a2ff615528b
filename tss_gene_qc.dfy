/**
 * The sanity checks the TSS-to-gene QC script runs over a curator's input
 * file before publishing: every line is split at tabs into TSS ID, TSS
 * symbol, gene ID and gene symbol, checked against the TSS and gene
 * lookups, and the run ends in one of three outcomes.
 */
module TssGeneQc {

  // ---------------------------------------------------------------------
  // Python 2 `string` helpers on byte strings
  // ---------------------------------------------------------------------

  /** `string.whitespace`: space, tab, line feed, carriage return, vertical tab, form feed. */
  predicate IsWhitespace(c: char) {
    c == ' ' || c == '\t' || c == '\n' || c == '\r' || c == '\U{000B}' || c == '\U{000C}'
  }

  function TrimLeft(s: string): (r: string)
    ensures |r| <= |s| && r == s[|s| - |r|..]
    ensures r == [] || !IsWhitespace(r[0])
    ensures forall k :: 0 <= k < |s| - |r| ==> IsWhitespace(s[k])
    decreases |s|
  {
    if s != [] && IsWhitespace(s[0]) then TrimLeft(s[1..]) else s
  }

  function TrimRight(s: string): (r: string)
    ensures |r| <= |s| && r == s[..|r|]
    ensures r == [] || !IsWhitespace(r[|r| - 1])
    ensures forall k :: |r| <= k < |s| ==> IsWhitespace(s[k])
    decreases |s|
  {
    if s != [] && IsWhitespace(s[|s| - 1]) then TrimRight(s[..|s| - 1]) else s
  }

  /**
   * `string.strip`: the longest stretch of s that neither starts nor ends in
   * whitespace; empty exactly when s is all whitespace.
   */
  function Strip(s: string): (r: string)
    ensures |r| <= |s|
    ensures r == [] || (!IsWhitespace(r[0]) && !IsWhitespace(r[|r| - 1]))
    ensures r == [] <==> forall k :: 0 <= k < |s| ==> IsWhitespace(s[k])
  {
    TrimBoth(s);
    TrimRight(TrimLeft(s))
  }

  /** r is s with i whitespace characters cut from the front and only whitespace cut from the back. */
  ghost predicate Trimmed(s: string, i: int, r: string) {
    && 0 <= i <= i + |r| <= |s|
    && r == s[i..i + |r|]
    && (forall k :: 0 <= k < i ==> IsWhitespace(s[k]))
    && (forall k :: i + |r| <= k < |s| ==> IsWhitespace(s[k]))
  }

  lemma TrimBoth(s: string)
    ensures var r := TrimRight(TrimLeft(s));
      && (r == [] || (!IsWhitespace(r[0]) && !IsWhitespace(r[|r| - 1])))
      && (r == [] <==> forall k :: 0 <= k < |s| ==> IsWhitespace(s[k]))
  {
    var l := TrimLeft(s);
    var r := TrimRight(l);
    if r != [] {
      assert r[0] == l[0];
    } else {
      assert l == [];
    }
  }

  /** The stripped line is a stretch of the line with only whitespace cut from either end. */
  lemma StripIsStretch(s: string)
    ensures exists i :: Trimmed(s, i, Strip(s))
  {
    var l := TrimLeft(s);
    TrimsAreTrimmed(s, l, TrimRight(l));
    assert Trimmed(s, |s| - |l|, Strip(s));
  }

  lemma TrimsAreTrimmed(s: string, l: string, r: string)
    requires |l| <= |s| && l == s[|s| - |l|..]
    requires forall k :: 0 <= k < |s| - |l| ==> IsWhitespace(s[k])
    requires |r| <= |l| && r == l[..|r|]
    requires forall k :: |r| <= k < |l| ==> IsWhitespace(l[k])
    ensures Trimmed(s, |s| - |l|, r)
  {
    var i := |s| - |l|;
    assert r == s[i..i + |r|];
    forall k | i + |r| <= k < |s| ensures IsWhitespace(s[k]) {
      assert s[k] == l[k - i];
    }
  }

  function LowerChar(c: char): char {
    if 'A' <= c <= 'Z' then (c as int + 32) as char else c
  }

  /** `string.lower` in the C locale: A-Z become a-z, every other character stays. */
  function Lower(s: string): (r: string)
    ensures |r| == |s|
    ensures forall i :: 0 <= i < |s| ==> r[i] == LowerChar(s[i])
    ensures forall i :: 0 <= i < |r| ==> !('A' <= r[i] <= 'Z')
    decreases |s|
  {
    if s == [] then [] else [LowerChar(s[0])] + Lower(s[1..])
  }

  /** The pieces joined back together with the separator between them. */
  function Join(parts: seq<string>, sep: char): string
    requires |parts| >= 1
    decreases |parts|
  {
    if |parts| == 1 then parts[0] else parts[0] + [sep] + Join(parts[1..], sep)
  }

  /** `string.split(s, sep)` with a one-character separator: never empty, no piece holds sep, and joining gives s back. */
  function Split(s: string, sep: char): (r: seq<string>)
    ensures |r| >= 1
    ensures forall i :: 0 <= i < |r| ==> sep !in r[i]
    ensures Join(r, sep) == s
    decreases |s|
  {
    if s == [] then [[]]
    else
      var rest := Split(s[1..], sep);
      if s[0] == sep then
        assert ([[]] + rest)[1..] == rest;
        [[]] + rest
      else
        var r := [[s[0]] + rest[0]] + rest[1..];
        assert r[1..] == rest[1..];
        assert |rest| > 1 ==> Join(rest, sep) == rest[0] + [sep] + Join(rest[1..], sep);
        assert |rest| > 1 ==> Join(r, sep) == ([s[0]] + rest[0]) + [sep] + Join(rest[1..], sep);
        assert s == [s[0]] + s[1..];
        r
  }

  /** The number of occurrences of c in s. */
  function Occurrences(s: string, c: char): nat
    decreases |s|
  {
    if s == [] then 0 else (if s[0] == c then 1 else 0) + Occurrences(s[1..], c)
  }

  /** Splitting at a character gives one piece more than it has occurrences. */
  lemma {:induction false} SplitCount(s: string, sep: char)
    ensures |Split(s, sep)| == Occurrences(s, sep) + 1
    decreases |s|
  {
    if s != [] {
      SplitCount(s[1..], sep);
    }
  }

  // ---------------------------------------------------------------------
  // The lookups and the per-line checks
  // ---------------------------------------------------------------------

  /** `(symbol, chromosome)`; the symbol as stored, lower-cased. */
  datatype LookupEntry = LookupEntry(symbol: string, chromosome: string)

  /** `tssLookup` / `markerLookup`: lower-cased MGI ID to its entry. */
  type IdLookup = map<string, LookupEntry>

  /** Why a line is rejected. */
  datatype Fault =
    | LessThan4Fields
    | MissingField
    | InvalidTssId
    | TssSymbolMismatch
    | InvalidGeneId
    | GeneSymbolMismatch
    | ChromosomeMismatch(tssChromosome: string, markerChromosome: string)

  /** The first four fields of a line, stripped. */
  datatype Fields = Fields(tssId: string, tssSymbol: string, markerId: string, markerSymbol: string)

  function FieldsOf(tokens: seq<string>): Fields
    requires |tokens| >= 4
  {
    Fields(Strip(tokens[0]), Strip(tokens[1]), Strip(tokens[2]), Strip(tokens[3]))
  }

  predicate HasEmptyField(f: Fields) {
    f.tssId == [] || f.tssSymbol == [] || f.markerId == [] || f.markerSymbol == []
  }

  /** The TSS ID check: unknown ID, or known ID whose stored symbol is not the line's symbol. */
  function TssFaults(f: Fields, tssLookup: IdLookup): seq<Fault> {
    var id := Lower(f.tssId);
    if id !in tssLookup then [InvalidTssId]
    else if tssLookup[id].symbol != Lower(f.tssSymbol) then [TssSymbolMismatch]
    else []
  }

  /** The gene ID check. */
  function GeneFaults(f: Fields, markerLookup: IdLookup): seq<Fault> {
    var id := Lower(f.markerId);
    if id !in markerLookup then [InvalidGeneId]
    else if markerLookup[id].symbol != Lower(f.markerSymbol) then [GeneSymbolMismatch]
    else []
  }

  /** The chromosome check, made only when both IDs are known. */
  function ChromosomeFaults(f: Fields, tssLookup: IdLookup, markerLookup: IdLookup): seq<Fault> {
    var t := Lower(f.tssId);
    var m := Lower(f.markerId);
    if t in tssLookup && m in markerLookup && tssLookup[t].chromosome != markerLookup[m].chromosome
    then [ChromosomeMismatch(tssLookup[t].chromosome, markerLookup[m].chromosome)]
    else []
  }

  /** The three checks of a line with four non-empty fields, in report order. */
  function FieldFaults(f: Fields, tssLookup: IdLookup, markerLookup: IdLookup): seq<Fault> {
    TssFaults(f, tssLookup) + GeneFaults(f, markerLookup) + ChromosomeFaults(f, tssLookup, markerLookup)
  }

  /** Everything one input line (as read, newline included) is rejected for, in report order. */
  function LineFaults(line: string, tssLookup: IdLookup, markerLookup: IdLookup): seq<Fault> {
    var tokens := Split(line, '\t');
    if |tokens| < 4 then [LessThan4Fields]
    else
      var f := FieldsOf(tokens);
      if HasEmptyField(f) then [MissingField]
      else FieldFaults(f, tssLookup, markerLookup)
  }

  /**
   * Which checks a line gets: fewer than four fields (fewer than three tabs)
   * stops the checks with LessThan4Fields; an empty field among the first
   * four stops them with MissingField; otherwise the line gets the ID and
   * chromosome checks.
   */
  lemma LineFaultsMeaning(line: string, tssLookup: IdLookup, markerLookup: IdLookup)
    ensures var tokens := Split(line, '\t'); var faults := LineFaults(line, tssLookup, markerLookup);
      && (|tokens| < 4 <==> Occurrences(line, '\t') < 3)
      && (|tokens| < 4 ==> faults == [LessThan4Fields])
      && (|tokens| >= 4 && HasEmptyField(FieldsOf(tokens)) ==> faults == [MissingField])
      && (|tokens| >= 4 && !HasEmptyField(FieldsOf(tokens)) ==> faults == FieldFaults(FieldsOf(tokens), tssLookup, markerLookup))
  {
    SplitCount(line, '\t');
  }

  /**
   * The ID checks of a line with four non-empty fields: each fires exactly
   * when the lower-cased ID is unknown or its stored symbol is not the
   * lower-cased symbol of the line.
   */
  lemma FieldFaultsIds(f: Fields, tssLookup: IdLookup, markerLookup: IdLookup)
    ensures var faults := FieldFaults(f, tssLookup, markerLookup);
      var t := Lower(f.tssId); var m := Lower(f.markerId);
      && (InvalidTssId in faults <==> t !in tssLookup)
      && (TssSymbolMismatch in faults <==> t in tssLookup && tssLookup[t].symbol != Lower(f.tssSymbol))
      && (InvalidGeneId in faults <==> m !in markerLookup)
      && (GeneSymbolMismatch in faults <==> m in markerLookup && markerLookup[m].symbol != Lower(f.markerSymbol))
  {
    var a, b, c := TssFaults(f, tssLookup), GeneFaults(f, markerLookup), ChromosomeFaults(f, tssLookup, markerLookup);
    assert FieldFaults(f, tssLookup, markerLookup) == a + b + c;
    assert forall x :: x in a + b + c <==> x in a || x in b || x in c;
    assert InvalidTssId !in b && InvalidTssId !in c && TssSymbolMismatch !in b && TssSymbolMismatch !in c;
    assert InvalidGeneId !in a && InvalidGeneId !in c && GeneSymbolMismatch !in a && GeneSymbolMismatch !in c;
  }

  /**
   * The chromosome check of a line with four non-empty fields fires exactly
   * when both IDs are known and their stored chromosomes differ; the two
   * early faults never come from these checks, and there are at most three.
   */
  lemma FieldFaultsChromosome(f: Fields, tssLookup: IdLookup, markerLookup: IdLookup)
    ensures var faults := FieldFaults(f, tssLookup, markerLookup);
      var t := Lower(f.tssId); var m := Lower(f.markerId);
      && ((exists a, b :: ChromosomeMismatch(a, b) in faults) <==>
            t in tssLookup && m in markerLookup && tssLookup[t].chromosome != markerLookup[m].chromosome)
      && LessThan4Fields !in faults && MissingField !in faults
      && |faults| <= 3
  {
    var t := Lower(f.tssId);
    var m := Lower(f.markerId);
    var a, b, c := TssFaults(f, tssLookup), GeneFaults(f, markerLookup), ChromosomeFaults(f, tssLookup, markerLookup);
    assert FieldFaults(f, tssLookup, markerLookup) == a + b + c;
    assert forall x :: x in a + b + c <==> x in a || x in b || x in c;
    assert forall x, y :: ChromosomeMismatch(x, y) !in a && ChromosomeMismatch(x, y) !in b;
    if t in tssLookup && m in markerLookup && tssLookup[t].chromosome != markerLookup[m].chromosome {
      assert ChromosomeMismatch(tssLookup[t].chromosome, markerLookup[m].chromosome) in c;
    }
  }

  // ---------------------------------------------------------------------
  // The whole file
  // ---------------------------------------------------------------------

  /** One entry of `errorList`: the fault, the 1-based line number and the stripped line. */
  datatype QcError = QcError(fault: Fault, lineNum: nat, line: string)

  /** A line once checked: its faults and its stripped text, as reported with them. */
  datatype Checked = Checked(faults: seq<Fault>, stripped: string)

  function Check(line: string, tssLookup: IdLookup, markerLookup: IdLookup): Checked {
    Checked(LineFaults(line, tssLookup, markerLookup), Strip(line))
  }

  /** Every line of the file, checked. */
  function CheckAll(lines: seq<string>, tssLookup: IdLookup, markerLookup: IdLookup): (cs: seq<Checked>)
    ensures |cs| == |lines|
    decreases |lines|
  {
    if lines == [] then [] else [Check(lines[0], tssLookup, markerLookup)] + CheckAll(lines[1..], tssLookup, markerLookup)
  }

  /** The checked file holds, at each index, the check of the line there. */
  lemma {:induction false} CheckAllAt(lines: seq<string>, tssLookup: IdLookup, markerLookup: IdLookup, i: nat)
    requires i < |lines|
    ensures CheckAll(lines, tssLookup, markerLookup)[i] == Check(lines[i], tssLookup, markerLookup)
    decreases i
  {
    if i > 0 {
      CheckAllAt(lines[1..], tssLookup, markerLookup, i - 1);
      assert lines[1..][i - 1] == lines[i];
    }
  }

  function Tag(faults: seq<Fault>, lineNum: nat, line: string): (r: seq<QcError>)
    ensures |r| == |faults|
    ensures forall i :: 0 <= i < |r| ==> r[i] == QcError(faults[i], lineNum, line)
    decreases |faults|
  {
    if faults == [] then [] else [QcError(faults[0], lineNum, line)] + Tag(faults[1..], lineNum, line)
  }

  /** The error list after the given checked lines, numbered from 1. */
  function ErrorsOf(cs: seq<Checked>): seq<QcError>
    decreases |cs|
  {
    if cs == [] then []
    else
      var n := |cs|;
      ErrorsOf(cs[..n - 1]) + Tag(cs[n - 1].faults, n, cs[n - 1].stripped)
  }

  /** `counter` after the given checked lines: it grows only while no line so far has failed. */
  function AcceptedOf(cs: seq<Checked>): nat
    decreases |cs|
  {
    if cs == [] then 0
    else
      var n := |cs|;
      var c := AcceptedOf(cs[..n - 1]);
      if c == n - 1 && cs[n - 1].faults == [] then n else c
  }

  /** One more checked line: its tagged faults are appended and the count moves on only while all passed. */
  lemma ErrorsStep(cs: seq<Checked>, n: nat)
    requires 1 <= n <= |cs|
    ensures ErrorsOf(cs[..n]) == ErrorsOf(cs[..n - 1]) + Tag(cs[n - 1].faults, n, cs[n - 1].stripped)
    ensures AcceptedOf(cs[..n]) == if AcceptedOf(cs[..n - 1]) == n - 1 && cs[n - 1].faults == [] then n else AcceptedOf(cs[..n - 1])
  {
    assert cs[..n][..n - 1] == cs[..n - 1];
  }

  /** The error list is empty exactly when every line passes. */
  lemma {:induction false} ErrorsEmpty(cs: seq<Checked>)
    ensures ErrorsOf(cs) == [] <==> forall i :: 0 <= i < |cs| ==> cs[i].faults == []
    decreases |cs|
  {
    if cs != [] {
      var n := |cs|;
      var prev := cs[..n - 1];
      ErrorsEmpty(prev);
      var tag := Tag(cs[n - 1].faults, n, cs[n - 1].stripped);
      assert ErrorsOf(cs) == ErrorsOf(prev) + tag;
      if ErrorsOf(cs) == [] {
        forall i | 0 <= i < n ensures cs[i].faults == [] {
          if i < n - 1 { assert prev[i] == cs[i]; }
        }
      }
      if forall i :: 0 <= i < n ==> cs[i].faults == [] {
        forall i | 0 <= i < n - 1 ensures prev[i].faults == [] {
          assert prev[i] == cs[i];
        }
      }
    }
  }

  /**
   * The sticky flag: `counter` is the number of lines before the first line
   * that fails, so it reaches the line count exactly when every line passes.
   */
  lemma {:induction false} AcceptedIsCleanPrefix(cs: seq<Checked>)
    ensures AcceptedOf(cs) <= |cs|
    ensures forall i :: 0 <= i < AcceptedOf(cs) ==> cs[i].faults == []
    ensures AcceptedOf(cs) < |cs| ==> cs[AcceptedOf(cs)].faults != []
    decreases |cs|
  {
    if cs != [] {
      var n := |cs|;
      var prev := cs[..n - 1];
      AcceptedIsCleanPrefix(prev);
      var c := AcceptedOf(prev);
      var a := AcceptedOf(cs);
      forall i | 0 <= i < a ensures cs[i].faults == [] {
        if i < n - 1 { assert prev[i] == cs[i]; }
      }
      if a < n && c < n - 1 {
        assert prev[c] == cs[c];
      }
    }
  }

  /** Every error names a line of the file, carries that line stripped and one of its faults. */
  predicate ReportsLines(errs: seq<QcError>, cs: seq<Checked>) {
    forall i :: 0 <= i < |errs| ==>
      && 1 <= errs[i].lineNum <= |cs|
      && errs[i].line == cs[errs[i].lineNum - 1].stripped
      && errs[i].fault in cs[errs[i].lineNum - 1].faults
  }

  predicate InLineOrder(errs: seq<QcError>) {
    forall i, j :: 0 <= i < j < |errs| ==> errs[i].lineNum <= errs[j].lineNum
  }

  /** The error list reports only faults of the lines they name. */
  lemma {:induction false} ErrorsReportLines(cs: seq<Checked>)
    ensures ReportsLines(ErrorsOf(cs), cs)
    decreases |cs|
  {
    if cs != [] {
      var n := |cs|;
      var before := cs[..n - 1];
      var prev := ErrorsOf(before);
      var tag := Tag(cs[n - 1].faults, n, cs[n - 1].stripped);
      ErrorsReportLines(before);
      var errs := ErrorsOf(cs);
      assert errs == prev + tag;
      forall i | 0 <= i < |errs|
        ensures && 1 <= errs[i].lineNum <= |cs|
                && errs[i].line == cs[errs[i].lineNum - 1].stripped
                && errs[i].fault in cs[errs[i].lineNum - 1].faults
      {
        if i < |prev| {
          assert errs[i] == prev[i];
          assert 1 <= prev[i].lineNum <= |before|;
          assert before[prev[i].lineNum - 1] == cs[prev[i].lineNum - 1];
        } else {
          assert errs[i] == tag[i - |prev|];
        }
      }
    }
  }

  /** The error list comes in line order. */
  lemma {:induction false} ErrorsInLineOrder(cs: seq<Checked>)
    ensures InLineOrder(ErrorsOf(cs))
    decreases |cs|
  {
    if cs != [] {
      var n := |cs|;
      var before := cs[..n - 1];
      var prev := ErrorsOf(before);
      var tag := Tag(cs[n - 1].faults, n, cs[n - 1].stripped);
      ErrorsInLineOrder(before);
      ErrorsReportLines(before);
      var errs := ErrorsOf(cs);
      assert errs == prev + tag;
      forall i, j | 0 <= i < j < |errs| ensures errs[i].lineNum <= errs[j].lineNum {
        if j >= |prev| {
          assert errs[j] == tag[j - |prev|];
          if i < |prev| {
            assert errs[i] == prev[i];
            assert prev[i].lineNum <= |before|;
          } else {
            assert errs[i] == tag[i - |prev|];
          }
        } else {
          assert errs[i] == prev[i] && errs[j] == prev[j];
        }
      }
    }
  }

  /** Every fault of every line is reported, with its line number and the stripped line. */
  lemma {:induction false} ErrorsComplete(cs: seq<Checked>, n: int, f: Fault)
    requires 1 <= n <= |cs|
    requires f in cs[n - 1].faults
    ensures QcError(f, n, cs[n - 1].stripped) in ErrorsOf(cs)
    decreases |cs|
  {
    var m := |cs|;
    var prev := ErrorsOf(cs[..m - 1]);
    var tag := Tag(cs[m - 1].faults, m, cs[m - 1].stripped);
    assert ErrorsOf(cs) == prev + tag;
    if n == m {
      var k :| 0 <= k < |cs[m - 1].faults| && cs[m - 1].faults[k] == f;
      assert tag[k] == QcError(f, n, cs[n - 1].stripped);
    } else {
      assert cs[..m - 1][n - 1] == cs[n - 1];
      ErrorsComplete(cs[..m - 1], n, f);
    }
  }

  /** How the QC run ends; the exit code is 0 for Passed and 3 for the two fatal outcomes. */
  datatype QcOutcome =
    | Passed(counter: nat)
    | IncompleteFile(lineCount: nat)
    | FatalErrors(errors: seq<QcError>)

  function ExitCode(o: QcOutcome): (code: int)
    ensures code == 0 <==> o.Passed?
    ensures code == 0 || code == 3
  {
    if o.Passed? then 0 else 3
  }

  /** The ID and chromosome checks of one line, appending their errors in order. */
  method CheckFields(f: Fields, lineNum: nat, lineStripped: string, tssLookup: IdLookup, markerLookup: IdLookup)
    returns (errs: seq<QcError>)
    ensures errs == Tag(FieldFaults(f, tssLookup, markerLookup), lineNum, lineStripped)
  {
    errs := [];
    if Lower(f.tssId) !in tssLookup {
      errs := errs + [QcError(InvalidTssId, lineNum, lineStripped)];
    } else {
      if !(tssLookup[Lower(f.tssId)].symbol == Lower(f.tssSymbol)) {
        errs := errs + [QcError(TssSymbolMismatch, lineNum, lineStripped)];
      }
    }
    assert errs == Tag(TssFaults(f, tssLookup), lineNum, lineStripped);
    ghost var afterTss := errs;

    if Lower(f.markerId) !in markerLookup {
      errs := errs + [QcError(InvalidGeneId, lineNum, lineStripped)];
    } else {
      if !(markerLookup[Lower(f.markerId)].symbol == Lower(f.markerSymbol)) {
        errs := errs + [QcError(GeneSymbolMismatch, lineNum, lineStripped)];
      }
    }
    assert errs == afterTss + Tag(GeneFaults(f, markerLookup), lineNum, lineStripped);
    ghost var afterGene := errs;

    if Lower(f.tssId) in tssLookup && Lower(f.markerId) in markerLookup {
      if !(tssLookup[Lower(f.tssId)].chromosome == markerLookup[Lower(f.markerId)].chromosome) {
        var mismatch := ChromosomeMismatch(tssLookup[Lower(f.tssId)].chromosome, markerLookup[Lower(f.markerId)].chromosome);
        errs := errs + [QcError(mismatch, lineNum, lineStripped)];
      }
    }
    assert errs == afterGene + Tag(ChromosomeFaults(f, tssLookup, markerLookup), lineNum, lineStripped);
    TagAppend3(TssFaults(f, tssLookup), GeneFaults(f, markerLookup), ChromosomeFaults(f, tssLookup, markerLookup),
               lineNum, lineStripped);
  }

  /** The checks of one line of the loop, with the early stops of a short line and of a missing field. */
  method CheckLine(line: string, lineNum: nat, tssLookup: IdLookup, markerLookup: IdLookup) returns (errs: seq<QcError>)
    ensures errs == Tag(LineFaults(line, tssLookup, markerLookup), lineNum, Strip(line))
  {
    var lineStripped := Strip(line);
    var tokens := Split(line, '\t');
    if |tokens| < 4 {
      return [QcError(LessThan4Fields, lineNum, lineStripped)];
    }
    var tssId := Strip(tokens[0]);
    var tssSymbol := Strip(tokens[1]);
    var markerId := Strip(tokens[2]);
    var markerSymbol := Strip(tokens[3]);
    if tssId == [] || tssSymbol == [] || markerId == [] || markerSymbol == [] {
      return [QcError(MissingField, lineNum, lineStripped)];
    }
    errs := CheckFields(Fields(tssId, tssSymbol, markerId, markerSymbol), lineNum, lineStripped, tssLookup, markerLookup);
  }

  /** The checks of the line at index `i`, numbered `i + 1`, as the whole-file check has them. */
  method CheckLineAt(lines: seq<string>, i: nat, tssLookup: IdLookup, markerLookup: IdLookup) returns (errs: seq<QcError>)
    requires i < |lines|
    ensures errs == Tag(CheckAll(lines, tssLookup, markerLookup)[i].faults, i + 1, CheckAll(lines, tssLookup, markerLookup)[i].stripped)
  {
    errs := CheckLine(lines[i], i + 1, tssLookup, markerLookup);
    CheckAllAt(lines, tssLookup, markerLookup, i);
  }

  /**
   * What the sticky flag means for a whole file: some line fails exactly
   * when the count stops short, and then the error list is not empty.
   */
  lemma FileVerdict(lines: seq<string>, tssLookup: IdLookup, markerLookup: IdLookup)
    ensures var cs := CheckAll(lines, tssLookup, markerLookup);
      && (AcceptedOf(cs) < |lines| <==> exists i :: 0 <= i < |lines| && LineFaults(lines[i], tssLookup, markerLookup) != [])
      && (AcceptedOf(cs) < |lines| ==> ErrorsOf(cs) != [])
      && AcceptedOf(cs) <= |lines|
  {
    var cs := CheckAll(lines, tssLookup, markerLookup);
    AcceptedIsCleanPrefix(cs);
    ErrorsEmpty(cs);
    var a := AcceptedOf(cs);
    if a < |lines| {
      CheckAllAt(lines, tssLookup, markerLookup, a);
    } else {
      forall i | 0 <= i < |lines| ensures LineFaults(lines[i], tssLookup, markerLookup) == [] {
        CheckAllAt(lines, tssLookup, markerLookup, i);
      }
    }
  }

  /**
   * The line loop of `runQcChecks`: every line's errors are appended to
   * `errorList`, the sticky `hasError` flag is raised by the first failing
   * line, and `counter` counts the lines before it.
   */
  method ScanLines(lines: seq<string>, tssLookup: IdLookup, markerLookup: IdLookup)
    returns (errorList: seq<QcError>, hasError: bool, counter: nat)
    ensures errorList == ErrorsOf(CheckAll(lines, tssLookup, markerLookup))
    ensures counter == AcceptedOf(CheckAll(lines, tssLookup, markerLookup))
    ensures hasError <==> counter < |lines|
  {
    errorList := [];
    hasError := false;
    counter := 0;
    var lineNum := 0;
    ghost var cs := CheckAll(lines, tssLookup, markerLookup);
    while lineNum < |lines|
      invariant 0 <= lineNum <= |lines|
      invariant errorList == ErrorsOf(cs[..lineNum])
      invariant counter == AcceptedOf(cs[..lineNum])
      invariant hasError <==> counter < lineNum
      invariant counter <= lineNum
    {
      var lineErrors := CheckLineAt(lines, lineNum, tssLookup, markerLookup);
      lineNum := lineNum + 1;
      ErrorsStep(cs, lineNum);
      errorList := errorList + lineErrors;
      if lineErrors != [] {
        hasError := true;
      }
      if hasError {
        continue;
      }
      counter := counter + 1;
    }
    assert cs[..lineNum] == cs;
  }

  /**
   * `runQcChecks` over the lines of the input file, with the two lookups and
   * MIN_LINES as inputs. Every line is checked; a short file is fatal
   * whatever its errors, then any error is fatal with the whole error list,
   * and otherwise the run passes with every line counted.
   */
  method RunQcChecks(lines: seq<string>, tssLookup: IdLookup, markerLookup: IdLookup, minLines: int)
    returns (outcome: QcOutcome, errorList: seq<QcError>, hasError: bool, counter: nat)
    ensures errorList == ErrorsOf(CheckAll(lines, tssLookup, markerLookup))
    ensures counter == AcceptedOf(CheckAll(lines, tssLookup, markerLookup))
    ensures hasError <==> exists i :: 0 <= i < |lines| && LineFaults(lines[i], tssLookup, markerLookup) != []
    ensures |lines| < minLines ==> outcome == IncompleteFile(|lines|)
    ensures |lines| >= minLines && hasError ==> outcome == FatalErrors(errorList) && errorList != []
    ensures |lines| >= minLines && !hasError ==> outcome == Passed(|lines|) && counter == |lines|
  {
    errorList, hasError, counter := ScanLines(lines, tssLookup, markerLookup);
    FileVerdict(lines, tssLookup, markerLookup);
    if |lines| < minLines {
      outcome := IncompleteFile(|lines|);
      return;
    }
    if hasError {
      outcome := FatalErrors(errorList);
      return;
    }
    outcome := Passed(counter);
  }

  /** Tagging the faults of the three checks one after the other. */
  lemma TagAppend3(a: seq<Fault>, b: seq<Fault>, c: seq<Fault>, lineNum: nat, line: string)
    ensures Tag(a + b + c, lineNum, line) == Tag(a, lineNum, line) + Tag(b, lineNum, line) + Tag(c, lineNum, line)
  {
    var l := Tag(a + b + c, lineNum, line);
    var r := Tag(a, lineNum, line) + Tag(b, lineNum, line) + Tag(c, lineNum, line);
    assert |l| == |r|;
    forall i | 0 <= i < |l| ensures l[i] == r[i] {
      assert l[i] == QcError((a + b + c)[i], lineNum, line);
    }
  }
}
