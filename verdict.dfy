/**
 * `_find_last_result_line`: one pass over the lines keeps the last line of
 * each of the four categories; the verdict is then chosen by the fixed
 * priority TEST-FAIL, TEST-PASS, SCB-FAIL, SCB-PASS, Questa error count, UNKNOWN.
 */
module Verdict {
  import opened Records
  import opened Matching
  import Decimal

  /** The `(result, source, line)` triple the resolution returns. */
  datatype Decision = Decision(result: Outcome, source: Source, line: Line)

  /** The recogniser behind slot `c`: the line itself when it is recorded there. */
  function Slot(pats: Patterns, c: Category): Line -> Option<Line>
  {
    line => if Recorded(pats, c, line) then Some(line) else None
  }

  /** `f"# Errors: {q_err} (heuristic)"`: the count can be read back from the note's digits. */
  function HeuristicNote(errors: nat): (note: Line)
    ensures exists digits :: Decimal.Spells(digits, errors) && note == "# Errors: " + digits + " (heuristic)"
  {
    Decimal.DecimalRoundTrip(errors);
    "# Errors: " + Decimal.ToDecimal(errors) + " (heuristic)"
  }

  /**
   * Specification of the resolution, slot by slot in priority order. A
   * TEST or SCB decision keeps a line of the log that carries that tag; a
   * QUESTA decision needs a summary line in the log.
   */
  function ResolveVerdict(lines: seq<Line>, pats: Patterns): (d: Decision)
    ensures d.source == Test ==> d.line in lines && Contains(d.line, TEST_MARKER)
    ensures d.source == Scb ==> d.line in lines && Contains(d.line, SCB_MARKER)
    ensures d.source == Questa ==> exists i :: 0 <= i < |lines| && pats.errWarn(lines[i]).Some?
  {
    var testFail := LastMatch(lines, Slot(pats, TestFail));
    var testPass := LastMatch(lines, Slot(pats, TestPass));
    var scbFail := LastMatch(lines, Slot(pats, ScbFail));
    var scbPass := LastMatch(lines, Slot(pats, ScbPass));
    if testFail.Some? then Decision(Fail, Test, testFail.value)
    else if testPass.Some? then Decision(Pass, Test, testPass.value)
    else if scbFail.Some? then Decision(Fail, Scb, scbFail.value)
    else if scbPass.Some? then Decision(Pass, Scb, scbPass.value)
    else match LastMatch(lines, pats.errWarn)
      case Some(q) =>
        Decision(if q.errors > 0 then Fail else Pass, Questa, HeuristicNote(q.errors))
      case None => Decision(Unknown, NoSource, "")
  }

  /** `_find_last_result_line` as written: a loop updating four slots, then the priority chain. */
  method FindLastResultLine(lines: seq<Line>, pats: Patterns) returns (d: Decision)
    ensures d == ResolveVerdict(lines, pats)
  {
    var lastTestPass: Option<Line> := None;
    var lastTestFail: Option<Line> := None;
    var lastScbPass: Option<Line> := None;
    var lastScbFail: Option<Line> := None;

    for i := 0 to |lines|
      invariant lastTestPass == LastMatch(lines[..i], Slot(pats, TestPass))
      invariant lastTestFail == LastMatch(lines[..i], Slot(pats, TestFail))
      invariant lastScbPass == LastMatch(lines[..i], Slot(pats, ScbPass))
      invariant lastScbFail == LastMatch(lines[..i], Slot(pats, ScbFail))
    {
      var line := lines[i];
      assert lines[..i + 1] == lines[..i] + [line];
      LastMatchSnoc(lines[..i], line, Slot(pats, TestPass));
      LastMatchSnoc(lines[..i], line, Slot(pats, TestFail));
      LastMatchSnoc(lines[..i], line, Slot(pats, ScbPass));
      LastMatchSnoc(lines[..i], line, Slot(pats, ScbFail));
      if Contains(line, TEST_MARKER) {
        if pats.testPass(line) {
          lastTestPass := Some(line);
        }
        if pats.testFail(line) {
          lastTestFail := Some(line);
        }
      }
      if Contains(line, SCB_MARKER) {
        if pats.scbPass(line) {
          lastScbPass := Some(line);
        }
        if pats.scbFail(line) {
          lastScbFail := Some(line);
        }
      }
    }
    assert lines[..|lines|] == lines;

    if lastTestFail.Some? {
      return Decision(Fail, Test, lastTestFail.value);
    }
    if lastTestPass.Some? {
      return Decision(Pass, Test, lastTestPass.value);
    }
    if lastScbFail.Some? {
      return Decision(Fail, Scb, lastScbFail.value);
    }
    if lastScbPass.Some? {
      return Decision(Pass, Scb, lastScbPass.value);
    }
    var q := LastMatchPair(lines, pats.errWarn);
    if q.Some? {
      if q.value.errors > 0 {
        return Decision(Fail, Questa, HeuristicNote(q.value.errors));
      } else {
        return Decision(Pass, Questa, HeuristicNote(q.value.errors));
      }
    }
    return Decision(Unknown, NoSource, "");
  }

  // ----- Properties of the resolution -----

  /** Some line is recorded in slot `c`. */
  predicate AnyRecorded(lines: seq<Line>, pats: Patterns, c: Category)
  {
    exists i :: 0 <= i < |lines| && Recorded(pats, c, lines[i])
  }

  /** `line` is the last line of `lines` recorded in slot `c`. */
  predicate IsLastRecorded(lines: seq<Line>, pats: Patterns, c: Category, line: Line)
  {
    exists k :: 0 <= k < |lines| && lines[k] == line && Recorded(pats, c, lines[k]) &&
      forall j :: k < j < |lines| ==> !Recorded(pats, c, lines[j])
  }

  /** What a slot ends up holding: nothing exactly when no line is recorded, else the last one. */
  lemma SlotContents(lines: seq<Line>, pats: Patterns, c: Category)
    ensures LastMatch(lines, Slot(pats, c)).None? <==> !AnyRecorded(lines, pats, c)
    ensures LastMatch(lines, Slot(pats, c)).Some? ==>
              IsLastRecorded(lines, pats, c, LastMatch(lines, Slot(pats, c)).value)
  {
    var r := LastMatch(lines, Slot(pats, c));
    if r.None? {
      forall i | 0 <= i < |lines| ensures !Recorded(pats, c, lines[i]) {
        assert Slot(pats, c)(lines[i]).None?;
      }
    } else {
      var k :| 0 <= k < |lines| && Slot(pats, c)(lines[k]) == r &&
               forall j :: k < j < |lines| ==> Slot(pats, c)(lines[j]).None?;
      assert Recorded(pats, c, lines[k]);
      forall j | k < j < |lines| ensures !Recorded(pats, c, lines[j]) {
        assert Slot(pats, c)(lines[j]).None?;
      }
    }
  }

  /**
   * A TEST-FAIL line decides the log as FAIL from TEST, whatever TEST-PASS
   * lines come before or after it, and the kept line is the last TEST-FAIL line.
   */
  lemma TestFailWins(lines: seq<Line>, pats: Patterns)
    requires AnyRecorded(lines, pats, TestFail)
    ensures ResolveVerdict(lines, pats).result == Fail
    ensures ResolveVerdict(lines, pats).source == Test
    ensures IsLastRecorded(lines, pats, TestFail, ResolveVerdict(lines, pats).line)
  {
    SlotContents(lines, pats, TestFail);
  }

  /** Without TEST-FAIL lines, a TEST-PASS line decides PASS from TEST, the last one kept. */
  lemma TestPassWinsWithoutTestFail(lines: seq<Line>, pats: Patterns)
    requires !AnyRecorded(lines, pats, TestFail) && AnyRecorded(lines, pats, TestPass)
    ensures ResolveVerdict(lines, pats).result == Pass
    ensures ResolveVerdict(lines, pats).source == Test
    ensures IsLastRecorded(lines, pats, TestPass, ResolveVerdict(lines, pats).line)
  {
    SlotContents(lines, pats, TestFail);
    SlotContents(lines, pats, TestPass);
  }

  /** SCB lines decide only when no TEST line is recorded; SCB-FAIL beats SCB-PASS. */
  lemma ScbDecidesWithoutTest(lines: seq<Line>, pats: Patterns)
    requires !AnyRecorded(lines, pats, TestFail) && !AnyRecorded(lines, pats, TestPass)
    requires AnyRecorded(lines, pats, ScbFail) || AnyRecorded(lines, pats, ScbPass)
    ensures ResolveVerdict(lines, pats).source == Scb
    ensures ResolveVerdict(lines, pats).result == Fail <==> AnyRecorded(lines, pats, ScbFail)
    ensures ResolveVerdict(lines, pats).result == Fail ==>
              IsLastRecorded(lines, pats, ScbFail, ResolveVerdict(lines, pats).line)
    ensures ResolveVerdict(lines, pats).result == Pass ==>
              IsLastRecorded(lines, pats, ScbPass, ResolveVerdict(lines, pats).line)
  {
    SlotContents(lines, pats, TestFail);
    SlotContents(lines, pats, TestPass);
    SlotContents(lines, pats, ScbFail);
    SlotContents(lines, pats, ScbPass);
  }

  /** No tagged line is recorded at all. */
  predicate NoTaggedLine(lines: seq<Line>, pats: Patterns)
  {
    !AnyRecorded(lines, pats, TestFail) && !AnyRecorded(lines, pats, TestPass) &&
    !AnyRecorded(lines, pats, ScbFail) && !AnyRecorded(lines, pats, ScbPass)
  }

  /**
   * Source of the decision, characterised by the log in both directions:
   * TEST iff a TEST line is recorded, SCB iff only SCB lines are, QUESTA iff no
   * tagged line but a summary line exists, and UNKNOWN iff neither.
   */
  lemma SourceCharacterised(lines: seq<Line>, pats: Patterns)
    ensures ResolveVerdict(lines, pats).source == Test <==>
              AnyRecorded(lines, pats, TestFail) || AnyRecorded(lines, pats, TestPass)
    ensures ResolveVerdict(lines, pats).source == Scb <==>
              !AnyRecorded(lines, pats, TestFail) && !AnyRecorded(lines, pats, TestPass) &&
              (AnyRecorded(lines, pats, ScbFail) || AnyRecorded(lines, pats, ScbPass))
    ensures ResolveVerdict(lines, pats).source == Questa <==>
              NoTaggedLine(lines, pats) && LastMatch(lines, pats.errWarn).Some?
    ensures ResolveVerdict(lines, pats).source == NoSource <==>
              NoTaggedLine(lines, pats) && LastMatch(lines, pats.errWarn).None?
  {
    SlotContents(lines, pats, TestFail);
    SlotContents(lines, pats, TestPass);
    SlotContents(lines, pats, ScbFail);
    SlotContents(lines, pats, ScbPass);
  }

  /**
   * The Questa heuristic: with no tagged line, the last summary line decides,
   * FAIL exactly when its error count is positive.
   */
  lemma QuestaHeuristic(lines: seq<Line>, pats: Patterns)
    requires NoTaggedLine(lines, pats) && LastMatch(lines, pats.errWarn).Some?
    ensures ResolveVerdict(lines, pats).source == Questa
    ensures ResolveVerdict(lines, pats).result == Fail <==> LastMatch(lines, pats.errWarn).value.errors > 0
    ensures ResolveVerdict(lines, pats).line == HeuristicNote(LastMatch(lines, pats.errWarn).value.errors)
  {
    SourceCharacterised(lines, pats);
  }

  /**
   * Result, source and line are set together: the result is UNKNOWN exactly
   * when the source is, and exactly when the kept line is empty.
   */
  lemma DecisionConsistent(lines: seq<Line>, pats: Patterns)
    ensures ResolveVerdict(lines, pats).result == Unknown <==> ResolveVerdict(lines, pats).source == NoSource
    ensures ResolveVerdict(lines, pats).result == Unknown <==> ResolveVerdict(lines, pats).line == ""
  {
    var d := ResolveVerdict(lines, pats);
    if d.source == Test || d.source == Scb {
      SourceCharacterised(lines, pats);
      var c :| c in {TestFail, TestPass, ScbFail, ScbPass} && LastMatch(lines, Slot(pats, c)).Some? &&
               LastMatch(lines, Slot(pats, c)).value == d.line;
      SlotContents(lines, pats, c);
      RecordedNonEmpty(pats, c, d.line);
    }
  }

  /**
   * The tag test is case-sensitive: a line without the literal `[TEST]` and
   * `[SCB]` tags that is no Questa summary leaves the decision unchanged
   * wherever it stands in the log, even when a case-insensitive result regex
   * accepts it (`[test] RESULT=FAIL`).
   */
  lemma UntaggedLineIgnored(pre: seq<Line>, line: Line, post: seq<Line>, pats: Patterns)
    requires !Contains(line, TEST_MARKER) && !Contains(line, SCB_MARKER)
    requires pats.errWarn(line).None?
    ensures ResolveVerdict(pre + [line] + post, pats) == ResolveVerdict(pre + post, pats)
  {
    LastMatchSkip(pre, line, post, Slot(pats, TestPass));
    LastMatchSkip(pre, line, post, Slot(pats, TestFail));
    LastMatchSkip(pre, line, post, Slot(pats, ScbPass));
    LastMatchSkip(pre, line, post, Slot(pats, ScbFail));
    LastMatchSkip(pre, line, post, pats.errWarn);
  }
}
