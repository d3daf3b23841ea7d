# check_journal: rule matching, classification and the journalctl run

A Dafny model of the core of `check_journal`, a Nagios-style check that reads
recent systemd journal entries through `journalctl` and reports the lines that
match critical or warning rules.

The model covers these parts:

- **Rule sets** (`Rules.dfy`, module `Rules`). A `RuleSet` has match patterns
  and exception patterns. A line matches when some match pattern fires and no
  exception fires. `Rules` pairs a critical and a warning rule set, built from
  the four lists of a rules document. Loading picks HTTP retrieval when the
  source names a URL scheme (`://`) and reads a local file otherwise. The
  regular-expression library is an `Engine` value with two uninterpreted
  function fields, `compiles(pattern)` and `accepts(pattern, line)`. Every
  result holds for every engine, with one exception. `ParseFailureReported`
  assumes that the pattern `invalid (re` does not compile, and nothing else
  about the engine.
- **Classification** (`Check.dfy`, module `Check`). The journal bytes are split
  on `\n`. Empty lines and the `-- Logs begin ` preamble are dropped. Critical
  rules are tried before warning rules. `Collect` is the fold of the source as
  a loop. It is proved equal to `Collected`, which is defined by `Select` over
  the segments, and the lemmas are about `Collected`.
- **Reporting**. `Push` appends a section to the message buffer in a loop. It
  is proved equal to the `Section` function, and `SectionLayout` shows what a
  section reads line by line. `Matched` is proved equal to `Evaluate`. The
  lemmas about `Evaluate` cover the layout of both sections and the severity.
- **Exit-status examination and the run**. `Examine` maps an exit status and
  the two output streams to "no output", a classified outcome or a failure.
  `Run` builds the journalctl command. It invokes an oracle that stands for
  the subprocess and for `File::create`, and returns a ghost log of what it
  did to the outside world (invocations and truncations). Its contract states
  the one-retry protocol and bounds the invocations at two.
- **Bytes and text** (`Bytes.dfy`, module `Bytes`). This module holds:
  - splitting on newlines and joining back, with both round trips proved;
  - substring search;
  - the decimal rendering that `format!` performs, with a parser and its
    round trip. `Debug`/`ParseDebug` give the same for the `{:?}` rendering
    of an exit status, so a failure text identifies its exit status.

Where the system's design description and the code disagree, the model
follows the code:

- **Display limit of zero.** The description treats a display limit of 0 as
  "unlimited". The code's `take(max_lines)` shows no lines at all when the
  limit is 0, with the header marked truncated. The model does the same.
- **Compile errors.** In the description a compile error carries the 1-based
  index of the bad pattern. The code only says `Failed to load <title> patterns`
  (or `exceptions`).
- **Failed retry.** In the description, a seek failure on the retry is
  surfaced as an execution error. The code examines the second capture like
  any other.
- **Filters and byte budget.** Unit filters and the user-scope flag appear
  nowhere in the code. No file of the core implements a total byte budget
  either. Only `src/main.rs:116-118` declares a `-b, --bytes` option
  ("Truncates output to B bytes total"), and that file is written against an
  older `Check` interface (`Check::try_from`).
- **Lines as bytes.** `Filtered::collect` hands `&[u8]` lines to
  `RuleSet::is_match(&str)`. The engine is therefore modelled as accepting a
  pattern and a byte line.

## Model

| member | source | states |
|---|---|---|
| `Rules.AnyMatch` | src/rules.rs:32 | a pattern set matches a line iff some pattern in it accepts the line |
| `Rules.AllCompile` | src/rules.rs:23-26 | a pattern set compiles iff every pattern in it compiles |
| `Rules.NewRuleSet` | src/rules.rs:21-28 | success iff all match patterns and all exceptions compile. A bad match pattern gives `Failed to load <title> patterns`. If all patterns compile but an exception does not, the error is `Failed to load <title> exceptions`. On success both lists are kept exactly |
| `Rules.IsMatch` | src/rules.rs:30-33 | true iff some match pattern accepts the line and no exception accepts it |
| `Rules.ExceptionOverrides` | src/rules.rs:143-150 | a line accepted by any exception never matches, whatever the match patterns |
| `Rules.NoPatternsNoMatch` | src/rules.rs:31-33 | a rule set without match patterns never matches, whatever its exceptions |
| `Rules.DefaultRuleSet` | src/rules.rs:36-44 | the default rule set matches no line under any engine |
| `Rules.DefaultRuleSetCompiles` | src/rules.rs:38-41 | building from two empty lists always succeeds and gives the default rule set, so the `unwrap` calls cannot fail |
| `Rules.DefaultRules` | src/rules.rs:54-59 | neither default rule set matches any line |
| `Rules.NewRules` | src/rules.rs:62-75 | success iff both rule sets build. A critical-set error is reported before any warning-set error. On success, `crit` comes from the critical lists and `warn` from the warning lists |
| `Rules.OriginOf` | src/rules.rs:86 | the source is fetched remotely iff `://` occurs in it at some position |
| `Rules.Load` | src/rules.rs:83-104 | exactly the document source chosen by `OriginOf` is consulted. Its error is passed on, and otherwise its document goes to `NewRules` |
| `Rules.RemoteOriginExample` | src/rules.rs:138-141 | the test URL takes the remote branch |
| `Rules.UnreachableUrlFails` | src/rules.rs:138-141 | if retrieving the test URL fails, loading fails with that error, whatever the file system holds |
| `Rules.LocalOriginExample` | src/rules.rs:111-114 | the fixture path takes the local-file branch |
| `Rules.ParseFailureReported` | src/rules.rs:116-127 | an invalid middle pattern gives exactly `Failed to load crit patterns` |
| `Bytes.Split` | src/check.rs:23 | at least one segment, and no segment holds a newline |
| `Bytes.JoinSplit` | src/check.rs:23 | joining the segments with newlines gives back the input |
| `Bytes.SplitJoin` | src/check.rs:23 | splitting newline-free segments joined by newlines gives back the segments |
| `Bytes.Contains` | src/check.rs:158 | true iff the needle occurs at some position of the haystack |
| `Bytes.Decimal` | src/check.rs:149 | the rendering is a non-empty string of digits with no leading zero: it starts with `0` exactly when the number is 0, and then it is exactly `0` |
| `Bytes.ParseDecimalRoundTrip` | src/check.rs:149 | the rendered number reads back as the number |
| `Check.Classify` | src/check.rs:24-30 | `Crit` iff the line is kept and critical rules match. `Warn` iff it is kept, critical rules do not match and warning rules do |
| `Check.SelectEnumerates` | src/check.rs:22-32 | the selected lines are the segments at strictly ascending indices, and those are exactly the indices whose segments have the category. So journal order is kept and nothing is lost or added |
| `Check.SelectPartition` | src/check.rs:22-32 | the critical, warning and ignored selections together have as many lines as there are segments |
| `Check.CollectedLines` | src/check.rs:21-33 | `crit` lines are kept segments matching critical rules. `warn` lines are kept segments matching warning rules but not critical ones. Every such segment is in its own list and not the other. `|crit| + |warn|` is at most the number of segments |
| `Check.Collect` | src/check.rs:21-33 | the loop yields exactly `Collected(journal)` |
| `Check.Severity` | src/check.rs:85-89 | `Ok("no matches")` iff both counts are 0. `Warning(w)` iff there are no criticals and w > 0. `Critical(c, w)` iff c > 0. The counts are carried unchanged |
| `Check.DefaultOutcome` | src/check.rs:54-61 | success with an empty summary and an empty message |
| `Check.SectionLayout` | src/check.rs:68-76 | split into lines, a section is a blank line, `*** <title> hits[ (truncated)] ***` (truncated iff more matches than the limit), a blank line, then exactly the first min(n, limit) matches, each ended by a newline |
| `Check.Push` | src/check.rs:64-78 | only appends: the new message is the old one followed by the section, and the status is unchanged. With no matches the outcome is returned unchanged |
| `Check.Matched` | src/check.rs:80-91 | the steps of `matched` yield exactly `Evaluate` |
| `Check.EvaluateLayout` | src/check.rs:82-84 | split into lines, the message is the critical block, then the warning block, then an empty last segment. The message is empty iff nothing matched |
| `Check.EvaluateStatus` | src/check.rs:85-90 | the status is the severity of the full counts, whatever the display limit. It is `Ok("no matches")` iff every segment is ignored, and `Critical` iff some segment is critical |
| `Check.SeverityOfLines` | src/check.rs:85-89 | for any lines, the severity is "no matches" iff all lines are ignored, and critical iff some line is critical |
| `Check.DebugRoundTrip` | src/check.rs:107 | the `{:?}` text of every exit status reads back as that status |
| `Check.DebugInjective` | src/check.rs:107 | different exit statuses give different failure texts |
| `Check.Empty` | src/check.rs:93-98 | success `Ok("no output")` and an empty message |
| `Check.Failed` | src/check.rs:100-110 | the error is `journalctl failed with <exit>`. The message is `\n*** stdout ***\n`, then stdout, then `\n*** stderr ***\n`, then stderr. Its length is the sum of the four, and the bytes right after stdout are exactly the stderr header |
| `Check.Error` | src/check.rs:112-117 | the given error and an empty message |
| `Check.Examine` | src/check.rs:134-142 | exit 0 or 1 with no output at all gives "no output". Exit 0 or 1 with stdout gives the classified outcome, whatever stderr holds. Any other case gives `Failed`. The status is an error exactly in those other cases |
| `Check.NoOutputDistinct` | src/check.rs:93-98 | a classified outcome is never the "no output" outcome |
| `Check.BuildCommand` | src/check.rs:146-155 | the program is the configured journalctl. The arguments are `--no-pager`, `--lines=` followed by the decimal rendering of 10 × lines (which reads back as that number), and `--since=-<span>`. A fourth argument `--cursor-file=<path>` is present exactly when a state file is set |
| `Check.Conclude` | src/check.rs:167-174 | a capture error becomes `Failed to execute '<journalctl>': <error>` and is never classified. A capture is examined |
| `Check.Run` | src/check.rs:145-175 | one invocation. Only when a state file is set and the first capture succeeded with `Failed to seek to cursor` on stderr, the state file is truncated. If that worked, the same command runs again. The last result is concluded, and a failed truncation becomes the error. There are 1 or 2 invocations, and 2 iff a retry was wanted and the truncation succeeded |
| `Check.SingleLineStatus` | src/check.rs:243-253 | a one-line journal is `Critical(1, 0)`, `Warning(1)` or `Ok("no matches")` as its line is critical, warning or ignored |
| `Check.OutcomeListsMatches` | src/check.rs:220-230 | with room for both matches, the section is the untruncated header then both matches, each on its own line |
| `Check.OutcomeTruncatesLines` | src/check.rs:232-241 | with room for one match, the section is the truncated header then the first match only |
| `Check.OutcomeListsMatchesText` | src/check.rs:222-230 | pushing `test1` with `first match` and `second match` and a limit of 10 onto an empty message gives the test's expected text `\n*** test1 hits ***\n`, `\n`, `first match\n`, `second match\n` |
| `Check.OutcomeTruncatesLinesText` | src/check.rs:233-241 | the same push with a limit of 1 gives the test's expected text `\n*** test2 hits (truncated) ***\n`, `\n`, `first match\n` |
| `Check.HeaderLineText` | src/check.rs:72 | the header line of a title is the text `*** <title> hits ***`, with ` (truncated)` before the closing stars when truncated |
| `Check.FailsOnExitStatus` | src/check.rs:287-297 | exit code 3 with no output fails with exactly `journalctl failed with Exited(3)` |
| `Check.IgnoresFirstLine` | src/check.rs:299-308 | a journal made of the `-- Logs begin ` preamble line has no matches, whatever the rules |
| `Check.DisregardsStderr` | src/check.rs:263-285 | after exit 0 or 1 with output, stderr does not change the outcome |

## Left out

- The regular-expression library is not modelled. Compilation and matching
  are the uninterpreted `Engine` fields.
- YAML parsing, the HTTP request and opening the rules file are oracles
  (`fetch`, `read`) passed to `Rules.Load`. Their error texts
  (`Failed to retrieve remote rules from …`, `Cannot open rules file …`) come
  from the oracle, and the connect and read timeouts are not modelled.
- Spawning journalctl and `File::create` are oracles. Process execution, pipes
  and the error texts of failed spawns are outside the model.
- `Check::new` only forwards `Rules::load` and is not modelled separately.
- `src/timeout.rs` is not part of this model. It uses signals and global state.
- `src/statefile.rs` is not part of this model. It is file persistence of one
  cursor string.
- `src/main.rs` is not part of this model. It covers command-line parsing and
  the mapping of the status to the process exit code.
- `src/utils.rs`, `src/tests.rs` and `tests/versions.rs` hold no logic of the
  core and are not part of this model.
- The fixture rules file and journal are not available. The unit tests that
  depend on their contents (`filter_crit_warn`, `load_from_file`,
  `matches_and_exceptions`, and the fixture-specific parts of
  `should_return_warn_crit_status`) are stated for any rules instead.
- There is no total byte budget on the message. No core file implements one;
  only the option declared in `src/main.rs:116-118` names it.
- Lines are copied values rather than slices borrowed from the journal buffer.
- Check.BuildCommand: `10 * lines` is computed on unbounded integers, so the
  `usize` overflow of a huge line limit is not modelled.
- Check.Examine: exit codes, signal numbers and `Other` values are unbounded
  integers rather than `u32`, `u8` and `i32`.
- Check.Run: the ghost event log stands for the side effects. The mutation
  of `cmd` and `cap` in place is modelled as successive values.
