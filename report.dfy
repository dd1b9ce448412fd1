/**
 * The aggregate decisions of `main` and `print_table`: one record per found
 * log, the PASS/FAIL/UNKNOWN totals, and the process exit status.
 */
module Report {
  import opened Records
  import opened Matching
  import opened Verdict
  import opened Classify
  import Discovery

  /** `sum(r.result == o for r in rows)`: the number of records whose outcome is `o`. */
  function Count(rows: seq<TestSummary>, o: Outcome): (n: nat)
    ensures n == |set i | 0 <= i < |rows| && rows[i].result == o|
    ensures n <= |rows|
  {
    if |rows| == 0 then 0
    else
      var last := |rows| - 1;
      var init := rows[..last];
      var before := set i | 0 <= i < |init| && init[i].result == o;
      var after := set i | 0 <= i < |rows| && rows[i].result == o;
      assert last !in before;
      assert after == if rows[last].result == o then before + {last} else before;
      Count(init, o) + (if rows[last].result == o then 1 else 0)
  }

  /** `any(r.result == o for r in rows)` */
  predicate AnyResult(rows: seq<TestSummary>, o: Outcome)
  {
    exists i :: 0 <= i < |rows| && rows[i].result == o
  }

  /** Some record has outcome `o` exactly when its tally is positive. */
  lemma {:induction false} AnyIffCounted(rows: seq<TestSummary>, o: Outcome)
    ensures AnyResult(rows, o) <==> Count(rows, o) > 0
  {
    if |rows| > 0 {
      var init := rows[..|rows| - 1];
      AnyIffCounted(init, o);
      if AnyResult(init, o) {
        var i :| 0 <= i < |init| && init[i].result == o;
        assert rows[i].result == o;
      }
      if AnyResult(rows, o) && rows[|rows| - 1].result != o {
        var i :| 0 <= i < |rows| && rows[i].result == o;
        assert init[i].result == o;
      }
    }
  }

  /** The TOTAL / PASS / FAIL / UNKNOWN line of the summary table. */
  datatype Totals = Totals(total: nat, pass: nat, fail: nat, unknown: nat)

  /** The three tallies partition the records: PASS + FAIL + UNKNOWN == TOTAL. */
  lemma {:induction false} TalliesPartition(rows: seq<TestSummary>)
    ensures Count(rows, Pass) + Count(rows, Fail) + Count(rows, Unknown) == |rows|
  {
    if |rows| > 0 {
      TalliesPartition(rows[..|rows| - 1]);
    }
  }

  function Tally(rows: seq<TestSummary>): (t: Totals)
    ensures t.total == |rows| && t.pass + t.fail + t.unknown == t.total
    ensures t.pass == |set i | 0 <= i < |rows| && rows[i].result == Pass|
    ensures t.fail == |set i | 0 <= i < |rows| && rows[i].result == Fail|
    ensures t.unknown == |set i | 0 <= i < |rows| && rows[i].result == Unknown|
    ensures t.fail > 0 <==> AnyResult(rows, Fail)
    ensures t.unknown > 0 <==> AnyResult(rows, Unknown)
  {
    TalliesPartition(rows);
    AnyIffCounted(rows, Fail);
    AnyIffCounted(rows, Unknown);
    Totals(|rows|, Count(rows, Pass), Count(rows, Fail), Count(rows, Unknown))
  }

  /** `rows = [parse_one_log(p) for p in paths]`, the text of each path given by `logOf`. */
  function Summaries(paths: seq<Path>, logOf: Path -> seq<Line>, pats: Patterns): (rows: seq<TestSummary>)
    ensures |rows| == |paths|
    ensures forall i :: 0 <= i < |paths| ==> rows[i] == Summarize(paths[i], logOf(paths[i]), pats)
  {
    seq(|paths|, i requires 0 <= i < |paths| => Summarize(paths[i], logOf(paths[i]), pats))
  }

  /** A record that lets the run pass: PASS, or UNKNOWN with `--allow-unknown`. */
  predicate Acceptable(r: TestSummary, allowUnknown: bool)
  {
    r.result == Pass || (allowUnknown && r.result == Unknown)
  }

  /**
   * The exit status once logs were found: FAIL, or UNKNOWN when not allowed,
   * gives 1. In both directions, it is 0 exactly when every record is
   * acceptable, and 1 otherwise.
   */
  function StatusOf(rows: seq<TestSummary>, allowUnknown: bool): (code: int)
    ensures code in {0, 1}
    ensures code == 0 <==> forall i :: 0 <= i < |rows| ==> Acceptable(rows[i], allowUnknown)
  {
    if AnyResult(rows, Fail) then 1
    else if AnyResult(rows, Unknown) && !allowUnknown then 1
    else 0
  }

  /**
   * `main`'s exit status for the glob expansions `results` of its patterns:
   * 2 when nothing was found, otherwise the status of the records. It is 2
   * exactly when every pattern expanded to nothing.
   */
  function ExitStatus(results: seq<seq<Path>>, logOf: Path -> seq<Line>, pats: Patterns, allowUnknown: bool): (code: int)
    ensures code in {0, 1, 2}
    ensures code == 2 <==> forall i :: 0 <= i < |results| ==> |results[i]| == 0
  {
    var paths := Discovery.FindLogs(results);
    Discovery.NothingFound(results);
    if |paths| == 0 then 2 else StatusOf(Summaries(paths, logOf, pats), allowUnknown)
  }

  /**
   * The exit status beyond "nothing found": 0 exactly when some log was found
   * and the record of every found log is acceptable, 1 exactly when some
   * log was found and one of the records is not.
   */
  lemma ExitStatusCharacterised(results: seq<seq<Path>>, logOf: Path -> seq<Line>, pats: Patterns, allowUnknown: bool)
    ensures var rows := Summaries(Discovery.FindLogs(results), logOf, pats);
      (ExitStatus(results, logOf, pats, allowUnknown) == 0 <==>
         (exists i :: 0 <= i < |results| && |results[i]| > 0) &&
         forall k :: 0 <= k < |rows| ==> Acceptable(rows[k], allowUnknown)) &&
      (ExitStatus(results, logOf, pats, allowUnknown) == 1 <==>
         (exists i :: 0 <= i < |results| && |results[i]| > 0) &&
         exists k :: 0 <= k < |rows| && !Acceptable(rows[k], allowUnknown))
  {
    Discovery.NothingFound(results);
  }

  /**
   * End to end: a found log whose last Questa summary reports errors makes
   * the run exit with 1, whatever its tags say and whatever `--allow-unknown` is.
   */
  lemma QuestaErrorsFailTheRun(results: seq<seq<Path>>, logOf: Path -> seq<Line>, pats: Patterns, allowUnknown: bool, p: Path)
    requires exists i :: 0 <= i < |results| && p in results[i]
    requires QuestaReportsErrors(LastMatch(logOf(p), pats.errWarn))
    ensures ExitStatus(results, logOf, pats, allowUnknown) == 1
  {
    var paths := Discovery.FindLogs(results);
    assert p in paths;
    var k :| 0 <= k < |paths| && paths[k] == p;
    var rows := Summaries(paths, logOf, pats);
    OverrideForcesFail(p, logOf(p), pats);
    assert rows[k].result == Fail;
  }
}
