/**
 * `find_logs`: the union of the glob expansions of every pattern, without
 * duplicates, in Python's string order (`sorted(set(paths))`). The glob
 * expansion itself is an input.
 */
module Discovery {
  import opened Records

  /** Python's `a < b` on `str`: lexicographic by code point, a proper prefix first. */
  predicate Below(a: Path, b: Path)
    decreases |a|
  {
    |b| > 0 && (|a| == 0 || a[0] < b[0] || (a[0] == b[0] && Below(a[1..], b[1..])))
  }

  lemma {:induction false} BelowIrreflexive(a: Path)
    ensures !Below(a, a)
    decreases |a|
  {
    if |a| > 0 {
      BelowIrreflexive(a[1..]);
    }
  }

  lemma {:induction false} BelowTransitive(a: Path, b: Path, c: Path)
    requires Below(a, b) && Below(b, c)
    ensures Below(a, c)
    decreases |a|
  {
    if |a| > 0 && a[0] == b[0] && b[0] == c[0] {
      BelowTransitive(a[1..], b[1..], c[1..]);
    }
  }

  lemma {:induction false} BelowAsymmetric(a: Path, b: Path)
    requires Below(a, b)
    ensures !Below(b, a)
    decreases |a|
  {
    if |a| > 0 && a[0] == b[0] {
      BelowAsymmetric(a[1..], b[1..]);
    }
  }

  lemma {:induction false} BelowTotal(a: Path, b: Path)
    requires a != b
    ensures Below(a, b) || Below(b, a)
    decreases |a|
  {
    if |a| > 0 && |b| > 0 && a[0] == b[0] {
      assert a == [a[0]] + a[1..] && b == [b[0]] + b[1..];
      BelowTotal(a[1..], b[1..]);
    }
  }

  /** Sorted in string order with no path twice. */
  predicate StrictlySorted(s: seq<Path>)
  {
    forall i, j :: 0 <= i < j < |s| ==> Below(s[i], s[j])
  }

  /** Insert one path into a strictly sorted list, unless it is there already. */
  function Insert(s: seq<Path>, p: Path): (r: seq<Path>)
    requires StrictlySorted(s)
    ensures StrictlySorted(r)
    ensures forall x :: x in r <==> x in s || x == p
  {
    if |s| == 0 then [p]
    else if p == s[0] then s
    else if Below(p, s[0]) then
      assert forall j :: 0 <= j < |s| ==> Below(p, s[j]) by {
        forall j | 0 < j < |s| { BelowTransitive(p, s[0], s[j]); }
      }
      [p] + s
    else
      BelowTotal(p, s[0]);
      var rest := Insert(s[1..], p);
      assert forall x :: x in rest ==> Below(s[0], x) by {
        forall x | x in rest ensures Below(s[0], x) {
          if x != p {
            var j :| 0 <= j < |s[1..]| && s[1..][j] == x;
            assert s[j + 1] == x;
          }
        }
      }
      [s[0]] + rest
  }

  /** `sorted(set(paths))`, built by inserting the paths one by one. */
  function SortedSet(paths: seq<Path>): (r: seq<Path>)
    ensures StrictlySorted(r)
    ensures forall x :: x in r <==> x in paths
  {
    if |paths| == 0 then []
    else Insert(SortedSet(paths[..|paths| - 1]), paths[|paths| - 1])
  }

  /** All glob results, pattern after pattern (`paths.extend(...)` in the loop). */
  function Concat(results: seq<seq<Path>>): (all: seq<Path>)
    ensures forall x :: x in all <==> exists i :: 0 <= i < |results| && x in results[i]
  {
    if |results| == 0 then []
    else
      var all := Concat(results[..|results| - 1]) + results[|results| - 1];
      assert forall i :: 0 <= i < |results| - 1 ==> results[..|results| - 1][i] == results[i];
      all
  }

  /**
   * `find_logs` over the expansions `results[i]` of the patterns: sorted,
   * duplicate-free, and holding exactly the paths some pattern matched.
   */
  function FindLogs(results: seq<seq<Path>>): (r: seq<Path>)
    ensures StrictlySorted(r)
    ensures forall x :: x in r <==> exists i :: 0 <= i < |results| && x in results[i]
  {
    SortedSet(Concat(results))
  }

  /** `find_logs` comes back empty exactly when every pattern expanded to nothing. */
  lemma NothingFound(results: seq<seq<Path>>)
    ensures |FindLogs(results)| == 0 <==> forall i :: 0 <= i < |results| ==> |results[i]| == 0
  {
    var paths := FindLogs(results);
    if |paths| > 0 {
      assert paths[0] in paths;
    }
    assert forall i :: 0 <= i < |results| && |results[i]| > 0 ==> results[i][0] in paths;
  }

  /**
   * The first element of a non-empty list is one of its elements; used where
   * a list may be empty, so that no index is evaluated there.
   */
  lemma HeadIsElement(s: seq<Path>)
    ensures |s| > 0 ==> s[0] in s
  {
  }

  /**
   * A strictly sorted list is determined by its elements, so `find_logs` is
   * the one sorted duplicate-free list of the matched paths, however built.
   */
  lemma {:induction false} StrictlySortedUnique(s: seq<Path>, t: seq<Path>)
    requires StrictlySorted(s) && StrictlySorted(t)
    requires forall x :: x in s <==> x in t
    ensures s == t
    decreases |s|
  {
    if |s| > 0 && |t| > 0 {
      assert s[0] in t && t[0] in s;
      var i :| 0 <= i < |t| && t[i] == s[0];
      var j :| 0 <= j < |s| && s[j] == t[0];
      if i > 0 {
        assert Below(t[0], s[0]);
        BelowAsymmetric(t[0], s[0]);
      }
      assert s[0] == t[0];
      BelowIrreflexive(s[0]);
      assert s == [s[0]] + s[1..] && t == [t[0]] + t[1..];
      forall x ensures x in s[1..] <==> x in t[1..] {
        if x in s[1..] {
          var k :| 1 <= k < |s| && s[k] == x;
          assert Below(s[0], x) && x != t[0];
          assert x in t;
          var m :| 0 <= m < |t| && t[m] == x;
          assert m > 0 && t[1..][m - 1] == x;
        }
        if x in t[1..] {
          var k :| 1 <= k < |t| && t[k] == x;
          assert Below(t[0], x) && x != s[0];
          assert x in s;
          var m :| 0 <= m < |s| && s[m] == x;
          assert m > 0 && s[1..][m - 1] == x;
        }
      }
      StrictlySortedUnique(s[1..], t[1..]);
    } else {
      HeadIsElement(s);
      HeadIsElement(t);
    }
  }
}
