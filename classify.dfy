/**
 * `parse_one_log`: assemble the summary record of one log from its lines —
 * scenario, seed, the last Questa summary, the resolved verdict, the hard
 * override on Questa errors, and the counters of the chosen line.
 */
module Classify {
  import opened Records
  import opened Matching
  import opened Verdict
  import PathNames
  import Decimal

  /**
   * Scenario name: the first `=== Run scenario: X ===` capture, else the
   * first `SCENARIO: X` capture, else the file name without its extension.
   * The name is empty only if the file name is.
   */
  function ScenarioOf(path: Path, lines: seq<Line>, pats: Patterns): (name: string)
    ensures PathNames.Basename(path) != "" ==> name != ""
  {
    match FirstMatch<Token>(lines, pats.scenarioHeader)
    case Some(t) => t
    case None =>
      match FirstMatch<Token>(lines, pats.scenarioAlt)
      case Some(t) => t
      case None => PathNames.Stem(PathNames.Basename(path))
  }

  /**
   * `f"# Errors: {q_err}, Warnings: {q_warn} (override)"`: both counts can be
   * read back from the note's digits.
   */
  function OverrideNote(q: ErrWarn): (note: Line)
    ensures exists e, w ::
              Decimal.Spells(e, q.errors) && Decimal.Spells(w, q.warnings) &&
              note == "# Errors: " + e + ", Warnings: " + w + " (override)"
  {
    Decimal.DecimalRoundTrip(q.errors);
    Decimal.DecimalRoundTrip(q.warnings);
    assert Decimal.Spells(Decimal.ToDecimal(q.errors), q.errors);
    assert Decimal.Spells(Decimal.ToDecimal(q.warnings), q.warnings);
    "# Errors: " + Decimal.ToDecimal(q.errors) + ", Warnings: " + Decimal.ToDecimal(q.warnings) + " (override)"
  }

  /** The Questa error count is reported and positive: the hard FAIL rule applies. */
  predicate QuestaReportsErrors(q: Option<ErrWarn>)
  {
    q.Some? && q.value.errors > 0
  }

  /**
   * Specification of the record `parse_one_log` returns for a log with these
   * lines. A PASS record never comes with reported Questa errors; a TEST or
   * SCB record names a line of the log; a QUESTA record needs a summary line.
   */
  function Summarize(path: Path, lines: seq<Line>, pats: Patterns): (s: TestSummary)
    ensures s.logfile == path
    ensures s.result == Pass ==> !QuestaReportsErrors(LastMatch(lines, pats.errWarn))
    ensures s.resultSource in {Test, Scb} ==> s.resultLine in lines
    ensures s.resultSource == Questa ==> exists i :: 0 <= i < |lines| && pats.errWarn(lines[i]).Some?
  {
    var q := LastMatch(lines, pats.errWarn);
    var d := ResolveVerdict(lines, pats);
    var final :=
      if QuestaReportsErrors(q) && d.result != Fail then Decision(Fail, Questa, OverrideNote(q.value))
      else d;
    TestSummary(
      logfile := path,
      scenario := ScenarioOf(path, lines, pats),
      seed := FirstMatch(lines, pats.seed),
      result := final.result,
      transfers := if final.line != "" then pats.transfers(final.line) else None,
      errors := if final.line != "" then pats.errorsKv(final.line) else None,
      questaErrors := if q.Some? then Some(q.value.errors) else None,
      questaWarnings := if q.Some? then Some(q.value.warnings) else None,
      resultSource := final.source,
      resultLine := final.line
    )
  }

  /** `parse_one_log` as written, with the override reassigning result, source and line. */
  method ParseOneLog(path: Path, lines: seq<Line>, pats: Patterns) returns (s: TestSummary)
    ensures s == Summarize(path, lines, pats)
  {
    var scenario := ScenarioOf(path, lines, pats);
    var seed := FirstMatch(lines, pats.seed);
    var q := LastMatchPair(lines, pats.errWarn);
    var d := FindLastResultLine(lines, pats);
    var result, source, line := d.result, d.source, d.line;

    if q.Some? && q.value.errors > 0 {
      if result != Fail {
        result := Fail;
        source := Questa;
        line := OverrideNote(q.value);
      }
    }

    var transfers := if line != "" then pats.transfers(line) else None;
    var errors := if line != "" then pats.errorsKv(line) else None;
    var qErr := if q.Some? then Some(q.value.errors) else None;
    var qWarn := if q.Some? then Some(q.value.warnings) else None;
    s := TestSummary(path, scenario, seed, result, transfers, errors, qErr, qWarn, source, line);
  }

  // ----- Properties of the record -----

  /**
   * Override law: when the last Questa summary reports errors the record is
   * FAIL. A FAIL already decided keeps its source and line; otherwise the
   * source becomes QUESTA and the line the synthesized override note.
   */
  lemma OverrideForcesFail(path: Path, lines: seq<Line>, pats: Patterns)
    requires QuestaReportsErrors(LastMatch(lines, pats.errWarn))
    ensures Summarize(path, lines, pats).result == Fail
    ensures ResolveVerdict(lines, pats).result == Fail ==>
              Summarize(path, lines, pats).resultSource == ResolveVerdict(lines, pats).source &&
              Summarize(path, lines, pats).resultLine == ResolveVerdict(lines, pats).line
    ensures ResolveVerdict(lines, pats).result != Fail ==>
              Summarize(path, lines, pats).resultSource == Questa &&
              Summarize(path, lines, pats).resultLine == OverrideNote(LastMatch(lines, pats.errWarn).value)
  {
  }

  /** Without reported Questa errors the resolved verdict stands unchanged. */
  lemma NoOverrideKeepsDecision(path: Path, lines: seq<Line>, pats: Patterns)
    requires !QuestaReportsErrors(LastMatch(lines, pats.errWarn))
    ensures Summarize(path, lines, pats).result == ResolveVerdict(lines, pats).result
    ensures Summarize(path, lines, pats).resultSource == ResolveVerdict(lines, pats).source
    ensures Summarize(path, lines, pats).resultLine == ResolveVerdict(lines, pats).line
  {
  }

  /**
   * A self-reported TEST PASS never masks a Questa error: with a TEST-PASS line,
   * no TEST-FAIL line and a positive error count in the last summary, the
   * record is FAIL from QUESTA with the override note.
   */
  lemma PassMaskedByQuestaErrors(path: Path, lines: seq<Line>, pats: Patterns)
    requires AnyRecorded(lines, pats, TestPass) && !AnyRecorded(lines, pats, TestFail)
    requires QuestaReportsErrors(LastMatch(lines, pats.errWarn))
    ensures Summarize(path, lines, pats).result == Fail
    ensures Summarize(path, lines, pats).resultSource == Questa
    ensures Summarize(path, lines, pats).resultLine == OverrideNote(LastMatch(lines, pats.errWarn).value)
  {
    TestPassWinsWithoutTestFail(lines, pats);
  }

  /**
   * The record stays consistent through the override: UNKNOWN result,
   * UNKNOWN source and empty line go together, and the counters of the
   * chosen line are absent when there is no line.
   */
  lemma SummaryConsistent(path: Path, lines: seq<Line>, pats: Patterns)
    ensures Summarize(path, lines, pats).result == Unknown <==>
              Summarize(path, lines, pats).resultSource == NoSource
    ensures Summarize(path, lines, pats).result == Unknown <==>
              Summarize(path, lines, pats).resultLine == ""
    ensures Summarize(path, lines, pats).result == Unknown ==>
              Summarize(path, lines, pats).transfers.None? && Summarize(path, lines, pats).errors.None?
  {
    DecisionConsistent(lines, pats);
  }

  /**
   * Counters come from the chosen line only: when there is one, they are
   * what the `transfers=` and `errors=` recognisers read from it.
   */
  lemma CountersFromChosenLine(path: Path, lines: seq<Line>, pats: Patterns)
    requires Summarize(path, lines, pats).result != Unknown
    ensures Summarize(path, lines, pats).transfers == pats.transfers(Summarize(path, lines, pats).resultLine)
    ensures Summarize(path, lines, pats).errors == pats.errorsKv(Summarize(path, lines, pats).resultLine)
  {
    SummaryConsistent(path, lines, pats);
  }

  /**
   * The Questa counts come from the LAST summary line, both from the same one,
   * and are both absent when no line is a summary.
   */
  lemma QuestaCountsFromLastSummary(path: Path, lines: seq<Line>, pats: Patterns)
    ensures Summarize(path, lines, pats).questaErrors.None? <==>
              forall i :: 0 <= i < |lines| ==> pats.errWarn(lines[i]).None?
    ensures Summarize(path, lines, pats).questaErrors.None? <==>
              Summarize(path, lines, pats).questaWarnings.None?
    ensures Summarize(path, lines, pats).questaErrors.Some? ==>
              exists k :: 0 <= k < |lines| &&
                pats.errWarn(lines[k]) == Some(ErrWarn(Summarize(path, lines, pats).questaErrors.value,
                                                        Summarize(path, lines, pats).questaWarnings.value)) &&
                forall j :: k < j < |lines| ==> pats.errWarn(lines[j]).None?
  {
  }

  /** The seed comes from the FIRST seed line, and is absent when there is none. */
  lemma SeedFromFirstSeedLine(path: Path, lines: seq<Line>, pats: Patterns)
    ensures Summarize(path, lines, pats).seed.None? <==>
              forall i :: 0 <= i < |lines| ==> pats.seed(lines[i]).None?
    ensures Summarize(path, lines, pats).seed.Some? ==>
              exists k :: 0 <= k < |lines| && pats.seed(lines[k]) == Summarize(path, lines, pats).seed &&
                forall j :: 0 <= j < k ==> pats.seed(lines[j]).None?
  {
  }

  /**
   * Scenario fallback, stated on the lines: the name is the capture of the
   * first header line; with no header line, of the first `SCENARIO` line;
   * with neither, the file's stem.
   */
  lemma ScenarioFallback(path: Path, lines: seq<Line>, pats: Patterns)
    ensures var name := ScenarioOf(path, lines, pats);
      (exists k :: 0 <= k < |lines| && pats.scenarioHeader(lines[k]) == Some(name) &&
         forall j :: 0 <= j < k ==> pats.scenarioHeader(lines[j]).None?) ||
      ((forall i :: 0 <= i < |lines| ==> pats.scenarioHeader(lines[i]).None?) &&
       exists k :: 0 <= k < |lines| && pats.scenarioAlt(lines[k]) == Some(name) &&
         forall j :: 0 <= j < k ==> pats.scenarioAlt(lines[j]).None?) ||
      ((forall i :: 0 <= i < |lines| ==> pats.scenarioHeader(lines[i]).None? && pats.scenarioAlt(lines[i]).None?) &&
       name == PathNames.Stem(PathNames.Basename(path)))
  {
    if FirstMatch<Token>(lines, pats.scenarioHeader).None? {
      var alt := FirstMatch<Token>(lines, pats.scenarioAlt);
      if alt.Some? {
        var k :| 0 <= k < |lines| && pats.scenarioAlt(lines[k]) == alt &&
                 forall j :: 0 <= j < k ==> pats.scenarioAlt(lines[j]).None?;
      }
    }
  }
}
