/**
 * Shared vocabulary of the Questa log summarizer: log lines, the per-line
 * recognisers that stand for the script's regular expressions, the verdict
 * enumerations and the per-log summary record.
 */
module Records {

  datatype Option<+T> = None | Some(value: T)

  /** One line of a decoded log, without its line terminator. */
  type Line = string

  /** A file-system path as the glob expansion returns it. */
  type Path = string

  /** The capture of a `(\S+)` group: never empty. */
  type Token = s: string | |s| > 0 witness "_"

  /** The two counts of a Questa summary line `# Errors: n, Warnings: m`. */
  datatype ErrWarn = ErrWarn(errors: nat, warnings: nat)

  /** PASS / FAIL / UNKNOWN */
  datatype Outcome = Pass | Fail | Unknown

  /** Which marker decided the outcome: TEST / SCB / QUESTA / UNKNOWN (here NoSource). */
  datatype Source = Test | Scb | Questa | NoSource

  /**
   * The regular expressions of the script, each as a recogniser applied to
   * one line. Their internal syntax (case folding, `\s*`, `\b`) is not modelled;
   * every property proved below holds for any choice of them.
   */
  datatype Patterns = Patterns(
    scenarioHeader: Line -> Option<Token>,  // RE_SCENARIO_1: `=== Run scenario: X ===`
    scenarioAlt: Line -> Option<Token>,     // RE_SCENARIO_2: `SCENARIO: X` / `SCENARIO=X`
    seed: Line -> Option<nat>,              // RE_SEED_1: `SEED: n` / `SEED=n`
    testPass: Line -> bool,                 // RE_TEST_PASS_LINE
    testFail: Line -> bool,                 // RE_TEST_FAIL_LINE
    scbPass: Line -> bool,                  // RE_SCB_PASS_LINE
    scbFail: Line -> bool,                  // RE_SCB_FAIL_LINE
    transfers: Line -> Option<nat>,         // RE_TRANSFERS, first match in the line
    errorsKv: Line -> Option<nat>,          // RE_ERRORS_KV, first match in the line
    errWarn: Line -> Option<ErrWarn>        // RE_FINAL_ERRWARN
  )

  /** The literal, case-sensitive tags tested with `in` before the regexes run. */
  const TEST_MARKER: string := "[TEST]"
  const SCB_MARKER: string := "[SCB]"

  /** The four slots the verdict scan keeps the last line of. */
  datatype Category = TestPass | TestFail | ScbPass | ScbFail

  /** `t` occurs in `s` starting at position `i`. */
  predicate OccursAt(s: string, t: string, i: int)
  {
    0 <= i && i + |t| <= |s| && s[i..i + |t|] == t
  }

  /**
   * Python's `t in s` on strings, checked position by position: `t` occurs
   * in `s` as a contiguous substring, at some position.
   */
  predicate Contains(s: string, t: string)
    ensures Contains(s, t) <==> exists i :: OccursAt(s, t, i)
    decreases |s|
  {
    if |t| <= |s| && s[..|t|] == t then
      assert OccursAt(s, t, 0);
      true
    else if |s| == 0 then false
    else
      var rest := Contains(s[1..], t);
      assert forall i :: OccursAt(s[1..], t, i) ==> OccursAt(s, t, i + 1);
      assert forall i :: OccursAt(s, t, i) ==> i == 0 || OccursAt(s[1..], t, i - 1);
      rest
  }

  /**
   * The line lands in slot `c` during the scan: the literal tag is present
   * (case-sensitively) and the category's own regex matches.
   */
  predicate Recorded(pats: Patterns, c: Category, line: Line)
  {
    match c
    case TestPass => Contains(line, TEST_MARKER) && pats.testPass(line)
    case TestFail => Contains(line, TEST_MARKER) && pats.testFail(line)
    case ScbPass => Contains(line, SCB_MARKER) && pats.scbPass(line)
    case ScbFail => Contains(line, SCB_MARKER) && pats.scbFail(line)
  }

  /** A recorded line always carries its tag, so it is never the empty line. */
  lemma RecordedNonEmpty(pats: Patterns, c: Category, line: Line)
    requires Recorded(pats, c, line)
    ensures line != ""
  {
  }

  /** The `TestSummary` dataclass: one record per log file. */
  datatype TestSummary = TestSummary(
    logfile: Path,
    scenario: string,
    seed: Option<nat>,
    result: Outcome,
    transfers: Option<nat>,
    errors: Option<nat>,
    questaErrors: Option<nat>,
    questaWarnings: Option<nat>,
    resultSource: Source,
    resultLine: Line
  )
}
