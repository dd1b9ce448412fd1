# Questa log summarizer — verified model of the classification core

This project models the decision logic of `summarize_questa_logs.py`. The script
scans hardware-simulation regression logs and classifies each run as
PASS, FAIL or UNKNOWN. It returns a process exit code that automation uses to
gate a build. The model covers:

- **Verdict resolution** (`_find_last_result_line`). One pass over the lines keeps
  the last TEST-PASS, TEST-FAIL, SCB-PASS and SCB-FAIL line. The verdict then
  follows the fixed priority TEST-FAIL, TEST-PASS, SCB-FAIL, SCB-PASS, the
  Questa `# Errors:` heuristic, UNKNOWN. This is the imperative method
  `Verdict.FindLastResultLine`, proved equal to the specification function
  `Verdict.ResolveVerdict`.
- **Record assembly and the override** (`parse_one_log`):
  - the scenario fallback chain;
  - the seed, taken from the FIRST match;
  - the Questa errors/warnings pair, taken from the LAST match;
  - the hard rule that a positive Questa error count forces FAIL;
  - the `transfers=`/`errors=` counters, read from the chosen line.

  This is the method `Classify.ParseOneLog`, proved equal to `Classify.Summarize`.
- **The match helpers.** `_first_match_int` is `Matching.FirstMatch`.
  `_last_match_int_pair` is the loop `Matching.LastMatchPair`, specified by
  `Matching.LastMatch`. The first-wins/last-wins asymmetry is part of both contracts.
- **Encoding choice** (`read_text_auto`). The model is a pure function from bytes
  to a codec tag: the three byte-order marks, then more than a tenth null bytes
  selects UTF-16-LE, otherwise UTF-8.
- **Aggregates** (`find_logs`, `print_table`, `main`):
  - the sorted, duplicate-free union of the glob results;
  - the PASS/FAIL/UNKNOWN tallies;
  - the exit status.

The script's regular expressions are modelled as **abstract per-line recognisers**,
the function-valued fields of `Records.Patterns`. Every property below holds for
every choice of them. The case-sensitive `"[TEST]" in line` and `"[SCB]" in line`
pre-checks stay concrete (`Records.Contains`). The lines of a log are the model's
input. Reading the file, decoding it and splitting it into lines happen before that.

On the following points the code decides differently from what its comments and a quick reading suggest; the model follows the code:

- **Within a tag, FAIL beats PASS whatever the line order.** "Last" decides only
  which line is recorded. A `[TEST] RESULT=FAIL` line followed later by
  `[TEST] RESULT=PASS` is FAIL (`Verdict.TestFailWins`). A general rule that "the
  later marker decides" therefore does not hold of the code. The rule holds only
  inside one category, and for the Questa summary line.
- **A single line can fill both a PASS and a FAIL slot.** Such a line then counts as
  FAIL.
- **The tag pre-checks are case-sensitive.** `[test] RESULT=FAIL` is ignored, even
  though the result regexes are case-insensitive. Such a line may stand anywhere in
  the log (`Verdict.UntaggedLineIgnored`).
- **The override keeps an earlier FAIL.** An existing FAIL keeps its source and line,
  so a heuristic FAIL keeps its `(heuristic)` note. Only a PASS or UNKNOWN is
  rewritten to QUESTA with the `(override)` note.
- **The `cp932` fallback of the reader can never run.** The UTF-8 decode uses
  `errors="ignore"` and so never raises. The codec tag therefore has no cp932 case.

## Model

| member | source | states |
|---|---|---|
| `Records.Contains` | tcl/summarize_questa_logs.py:111-117 | `tag in line` holds exactly when the tag occurs in the line at some position |
| `Records.RecordedNonEmpty` | tcl/summarize_questa_logs.py:110-121 | a line kept in any of the four slots carries its literal tag, so it is never the empty line |
| `Matching.FirstMatch` | tcl/summarize_questa_logs.py:78-80 | the result is absent iff no line matches; otherwise it is the capture of a matching line with no match before it (first wins) |
| `Matching.LastMatch` | tcl/summarize_questa_logs.py:83-89 | the result is absent iff no line matches; otherwise it is the capture of a matching line with no match after it (last wins) |
| `Matching.LastMatchSnoc` | tcl/summarize_questa_logs.py:85-86 | one more line replaces the kept match when it matches, and leaves it alone otherwise |
| `Matching.LastMatchIgnoresEarlierLines` | tcl/summarize_questa_logs.py:36-37 | once a later block of lines holds a summary, nothing printed before it (an interim summary) affects the result |
| `Matching.LastMatchPair` | tcl/summarize_questa_logs.py:83-89 | the loop that reassigns `last` returns exactly the last match; the errors and warnings counts are both present or both absent |
| `Decimal.ToDecimal` | tcl/summarize_questa_logs.py:174 | `str(n)` in the synthesized notes is a non-empty run of digits with no leading zero, and `0` is written `"0"` |
| `Decimal.DecimalRoundTrip` | tcl/summarize_questa_logs.py:174 | reading the digits of a synthesized count back gives the count (`int(str(n)) == n`) |
| `Verdict.HeuristicNote` | tcl/summarize_questa_logs.py:139-143 | the heuristic note spells the error count in canonical decimal (no leading zero, `0` as `"0"`) that reads back to the count |
| `Verdict.ResolveVerdict` | tcl/summarize_questa_logs.py:123-145 | a TEST or SCB decision keeps a line of the log carrying that literal tag; a QUESTA decision happens only when the log holds a summary line |
| `Verdict.FindLastResultLine` | tcl/summarize_questa_logs.py:92-145 | the four-slot loop followed by the priority chain returns the decision the priority specification gives, for every log |
| `Verdict.SlotContents` | tcl/summarize_questa_logs.py:110-121 | after the scan a slot is empty iff no line qualifies (literal tag present and its regex matches); otherwise it holds the last qualifying line |
| `Verdict.TestFailWins` | tcl/summarize_questa_logs.py:110-125 | any TEST-FAIL line makes the result FAIL from TEST, even with TEST-PASS lines later; the kept line is the last TEST-FAIL line |
| `Verdict.TestPassWinsWithoutTestFail` | tcl/summarize_questa_logs.py:123-127 | with no TEST-FAIL line, a TEST-PASS line makes the result PASS from TEST, keeping the last TEST-PASS line |
| `Verdict.ScbDecidesWithoutTest` | tcl/summarize_questa_logs.py:129-133 | with no TEST line, SCB lines decide; the result is FAIL iff an SCB-FAIL line exists, keeping the last line of the deciding category |
| `Verdict.SourceCharacterised` | tcl/summarize_questa_logs.py:123-145 | the source is TEST iff a TEST line exists, SCB iff only SCB lines exist, QUESTA iff no tagged line but a summary exists, UNKNOWN iff neither |
| `Verdict.QuestaHeuristic` | tcl/summarize_questa_logs.py:135-143 | with no tagged line and a summary present, the result is FAIL iff the last summary's error count is positive, with the heuristic note as line |
| `Verdict.DecisionConsistent` | tcl/summarize_questa_logs.py:123-145 | result and source are set together: the result is UNKNOWN iff the source is UNKNOWN iff the line is empty |
| `Verdict.UntaggedLineIgnored` | tcl/summarize_questa_logs.py:110-121 | a line without the case-sensitive `[TEST]`/`[SCB]` tags that is no summary line never changes the decision, wherever it stands in the log and whatever the case-insensitive regexes say |
| `PathNames.LastIndexOf` | tcl/summarize_questa_logs.py:157 | `rfind` of one character: -1 or an index holding the character, with no occurrence after it |
| `PathNames.Basename` | tcl/summarize_questa_logs.py:157 | the basename is the path's tail after its last `/`, holds no `/`, and is preceded by `/` when shorter than the path |
| `PathNames.Stem` | tcl/summarize_questa_logs.py:157 | the stem is a prefix of the name; it drops only a final extension after a non-dot character, and it does drop one whenever a `.` follows a non-dot character; a non-empty name has a non-empty stem |
| `Classify.ScenarioOf` | tcl/summarize_questa_logs.py:151-157 | the scenario name is non-empty whenever the file name is (captures and the stem of a non-empty name are never empty) |
| `Classify.OverrideNote` | tcl/summarize_questa_logs.py:174 | the override note spells both Questa counts in canonical decimal (no leading zero, `0` as `"0"`) that read back to the counts |
| `Classify.Summarize` | tcl/summarize_questa_logs.py:148-191 | the record names its log file; a PASS record never has reported Questa errors; a TEST or SCB record's line is a line of the log; a QUESTA record needs a summary line |
| `Classify.ParseOneLog` | tcl/summarize_questa_logs.py:148-191 | the record built with the override reassigning result, source and line is the record the specification assembles |
| `Classify.OverrideForcesFail` | tcl/summarize_questa_logs.py:168-174 | a positive last Questa error count makes the record FAIL; an earlier FAIL keeps its source and line, otherwise the source is QUESTA and the line the override note |
| `Classify.NoOverrideKeepsDecision` | tcl/summarize_questa_logs.py:168-174 | without a positive Questa error count, result, source and line are the resolved ones |
| `Classify.PassMaskedByQuestaErrors` | tcl/summarize_questa_logs.py:168-174 | a self-reported TEST PASS with a positive Questa error count ends as FAIL from QUESTA with the override note |
| `Classify.SummaryConsistent` | tcl/summarize_questa_logs.py:166-178 | after the override the record is still consistent: UNKNOWN result iff UNKNOWN source iff empty line, and then no counters |
| `Classify.CountersFromChosenLine` | tcl/summarize_questa_logs.py:176-178 | when a line was chosen, `transfers` and `errors` are what their recognisers read from that line |
| `Classify.QuestaCountsFromLastSummary` | tcl/summarize_questa_logs.py:162-163 | the Questa counts are both absent iff no summary line exists; otherwise both come from one summary line with none after it |
| `Classify.SeedFromFirstSeedLine` | tcl/summarize_questa_logs.py:159-160 | the seed is absent iff no seed line exists; otherwise it comes from a seed line with none before it |
| `Classify.ScenarioFallback` | tcl/summarize_questa_logs.py:151-157 | the scenario is the first header capture, else the first `SCENARIO` capture, else the file stem |
| `TextEncoding.ChooseEncoding` | tcl/summarize_questa_logs.py:59-75 | a byte-order mark at the start always selects its own codec; plain UTF-8 is chosen only for bytes without a mark |
| `TextEncoding.NullCount` | tcl/summarize_questa_logs.py:66 | the null count never exceeds the byte count |
| `TextEncoding.NullCountIsMultiplicity` | tcl/summarize_questa_logs.py:66 | `b.count(b"\x00")` equals the multiplicity of byte 0 in the bytes |
| `TextEncoding.MoreThanATenth` | tcl/summarize_questa_logs.py:66 | `count > len // 10` with floor division holds iff nulls are strictly more than a tenth of the bytes |
| `TextEncoding.ChooseEncodingCharacterised` | tcl/summarize_questa_logs.py:59-75 | FF FE gives UTF-16-LE, FE FF gives UTF-16-BE, EF BB BF gives UTF-8-sig; with no mark, UTF-16-LE iff more than a tenth of bytes are null, else UTF-8 (each in both directions) |
| `Discovery.BelowIrreflexive` | tcl/summarize_questa_logs.py:198 | no path sorts before itself in Python's string order |
| `Discovery.BelowTransitive` | tcl/summarize_questa_logs.py:198 | Python's string order is transitive |
| `Discovery.BelowAsymmetric` | tcl/summarize_questa_logs.py:198 | two paths never sort before each other |
| `Discovery.BelowTotal` | tcl/summarize_questa_logs.py:198 | of two distinct paths one sorts before the other |
| `Discovery.Insert` | tcl/summarize_questa_logs.py:198 | inserting into a strictly sorted list keeps it strictly sorted and adds exactly the new path |
| `Discovery.SortedSet` | tcl/summarize_questa_logs.py:198 | `sorted(set(paths))` is strictly sorted and holds exactly the input's paths |
| `Discovery.Concat` | tcl/summarize_questa_logs.py:195-197 | the extended list holds exactly the paths of some pattern's expansion |
| `Discovery.FindLogs` | tcl/summarize_questa_logs.py:194-198 | the found paths are strictly sorted (so duplicate-free) and are exactly the union of the glob results |
| `Discovery.StrictlySortedUnique` | tcl/summarize_questa_logs.py:198 | two strictly sorted lists with the same paths are equal, so the result is the one sorted duplicate-free list of the matches |
| `Discovery.NothingFound` | tcl/summarize_questa_logs.py:285-288 | no log is found iff every pattern expanded to nothing |
| `Report.Count` | tcl/summarize_questa_logs.py:235-237 | a tally is the number of records whose result is that outcome (so never more than the number of records) |
| `Report.AnyIffCounted` | tcl/summarize_questa_logs.py:301-302 | `any(r.result == o ...)` holds iff the tally of o is positive |
| `Report.TalliesPartition` | tcl/summarize_questa_logs.py:234-238 | PASS + FAIL + UNKNOWN equals TOTAL |
| `Report.Tally` | tcl/summarize_questa_logs.py:234-238 | the totals line: each tally is the number of records with that outcome; the three sum to the total; FAIL and UNKNOWN tallies are positive iff such a record exists |
| `Report.Summaries` | tcl/summarize_questa_logs.py:290 | one record per found path, in order, each the record of that path's log |
| `Report.StatusOf` | tcl/summarize_questa_logs.py:301-308 | once logs are found the status is 0 or 1, and 0 iff every record is PASS, or UNKNOWN with `--allow-unknown` |
| `Report.ExitStatus` | tcl/summarize_questa_logs.py:285-308 | the exit status is 0, 1 or 2, and 2 iff no pattern matched a file |
| `Report.ExitStatusCharacterised` | tcl/summarize_questa_logs.py:285-308 | the exit status is 0 iff logs were found and every record is acceptable, and 1 iff logs were found and some record is not |
| `Report.QuestaErrorsFailTheRun` | tcl/summarize_questa_logs.py:301-305 | a found log whose last Questa summary reports errors makes the run exit with 1, whatever its tags and `--allow-unknown` |

## Left out

- Report.ExitStatus: the model takes every found path as readable (`logOf` is
  total) and the table and CSV as always written. In the source, an exception while
  opening a found path (a directory or unreadable file), writing the CSV or
  printing ends `main` with a traceback and status 1, even when every record would
  be acceptable. `Report.ExitStatusCharacterised` holds only for runs without such
  an exception.
- The regular-expression engine. Each `RE_*` pattern is an abstract recogniser on
  one line, so `\s*`, `\b`, `\S+`, `\d+` and `IGNORECASE` are not modelled. The
  only thing assumed of the `(\S+)` captures is that they are non-empty.
- Whole-text `MULTILINE` searches are modelled as searches line by line. In the
  source, `\s*` in `RE_SCENARIO_1`, `RE_SCENARIO_2`, `RE_SEED_1` and `RE_FINAL_ERRWARN` can run
  across a line break. `str.splitlines` also splits on terminators other than `\n`.
- File reading and byte-to-text decoding (`open`, `bytes.decode` with
  `errors="ignore"`). These are library calls. The model takes the decoded lines
  as input and models only the codec choice. For the same reason, no property
  relating a UTF-16 file to its UTF-8 equivalent is stated.
- `glob.glob` expansion. Its results are an input, one sequence per pattern.
- `os.path` is modelled as POSIX paths: only `/` separates. On Windows `ntpath`
  also splits on `\` and drive letters.
- `argparse` and the default patterns. `--allow-unknown` is a parameter.
- The fixed-width output of `print_table`, `write_csv`, directory creation and
  the `--debug-lines` output. These are I/O and formatting; only the tallies are
  modelled.
- `RE_IN_KV`, `RE_OUT_KV` and `RE_PENDING_KV`. Nothing in the script uses them.
- Classifying the same text twice giving the same record needs no lemma. Every
  function here is deterministic by construction.
