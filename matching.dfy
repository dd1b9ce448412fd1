/**
 * The two search helpers of the script and their asymmetry: `_first_match_int`
 * keeps the FIRST matching line, `_last_match_int_pair` the LAST one.
 */
module Matching {
  import opened Records

  /**
   * `_first_match_int`: the capture of the first line the recogniser accepts,
   * or None when no line matches.
   */
  function FirstMatch<T>(lines: seq<Line>, rx: Line -> Option<T>): (r: Option<T>)
    ensures r.None? <==> forall i :: 0 <= i < |lines| ==> rx(lines[i]).None?
    ensures r.Some? ==> exists k :: 0 <= k < |lines| && rx(lines[k]) == r &&
                          forall j :: 0 <= j < k ==> rx(lines[j]).None?
  {
    if |lines| == 0 then None
    else if rx(lines[0]).Some? then rx(lines[0])
    else
      var r := FirstMatch(lines[1..], rx);
      assert forall i :: 1 <= i < |lines| ==> lines[1..][i - 1] == lines[i];
      r
  }

  /**
   * The capture of the last line the recogniser accepts, or None when no
   * line matches: the specification of `_last_match_int_pair` and of the
   * four `last_*` slots of `_find_last_result_line`.
   */
  function LastMatch<T>(lines: seq<Line>, rx: Line -> Option<T>): (r: Option<T>)
    ensures r.None? <==> forall i :: 0 <= i < |lines| ==> rx(lines[i]).None?
    ensures r.Some? ==> exists k :: 0 <= k < |lines| && rx(lines[k]) == r &&
                          forall j :: k < j < |lines| ==> rx(lines[j]).None?
  {
    if |lines| == 0 then None
    else if rx(lines[|lines| - 1]).Some? then rx(lines[|lines| - 1])
    else
      var r := LastMatch(lines[..|lines| - 1], rx);
      assert forall i :: 0 <= i < |lines| - 1 ==> lines[..|lines| - 1][i] == lines[i];
      r
  }

  /** Appending a line: a match in it replaces whatever was kept so far. */
  lemma LastMatchSnoc<T>(lines: seq<Line>, line: Line, rx: Line -> Option<T>)
    ensures LastMatch(lines + [line], rx) ==
            if rx(line).Some? then rx(line) else LastMatch(lines, rx)
  {
    assert (lines + [line])[..|lines|] == lines;
  }

  /** A line the recogniser rejects can be dropped from anywhere without changing the last match. */
  lemma {:induction false} LastMatchSkip<T>(pre: seq<Line>, line: Line, post: seq<Line>, rx: Line -> Option<T>)
    requires rx(line).None?
    ensures LastMatch(pre + [line] + post, rx) == LastMatch(pre + post, rx)
    decreases |post|
  {
    if |post| == 0 {
      assert pre + [line] + post == pre + [line] && pre + post == pre;
      LastMatchSnoc(pre, line, rx);
    } else {
      var init, x := post[..|post| - 1], post[|post| - 1];
      LastMatchSkip(pre, line, init, rx);
      assert pre + [line] + post == (pre + [line] + init) + [x];
      assert pre + post == (pre + init) + [x];
      LastMatchSnoc(pre + [line] + init, x, rx);
      LastMatchSnoc(pre + init, x, rx);
    }
  }

  /** Prepending a line never changes the last match unless nothing later matches. */
  lemma {:induction false} LastMatchIgnoresEarlierLines<T>(early: seq<Line>, late: seq<Line>, rx: Line -> Option<T>)
    requires LastMatch(late, rx).Some?
    ensures LastMatch(early + late, rx) == LastMatch(late, rx)
    decreases |late|
  {
    var n := |late|;
    assert (early + late)[|early + late| - 1] == late[n - 1];
    if rx(late[n - 1]).None? {
      assert (early + late)[..|early + late| - 1] == early + late[..n - 1];
      LastMatchIgnoresEarlierLines(early, late[..n - 1], rx);
    }
  }

  /**
   * `_last_match_int_pair`: scan every line, keeping the last summary match.
   * (None, None) of the source is None here; both counts come from the same
   * line, so one is present exactly when the other is.
   */
  method LastMatchPair(lines: seq<Line>, rx: Line -> Option<ErrWarn>) returns (last: Option<ErrWarn>)
    ensures last == LastMatch(lines, rx)
  {
    last := None;
    for i := 0 to |lines|
      invariant last == LastMatch(lines[..i], rx)
    {
      LastMatchSnoc(lines[..i], lines[i], rx);
      assert lines[..i] + [lines[i]] == lines[..i + 1];
      var m := rx(lines[i]);
      if m.Some? {
        last := m;
      }
    }
    assert lines[..|lines|] == lines;
  }
}
