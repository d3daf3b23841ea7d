/**
 * Check execution and reporting: classifying journal lines against the
 * rules, rendering the report, deriving the severity, examining the exit
 * status of journalctl and running it with the one-retry protocol for a
 * stale cursor file.
 */
module Check {
  import opened Wrappers
  import opened Bytes
  import Rules

  // ===========================================================================
  // Classification (`Filtered::collect`)
  // ===========================================================================

  /** Preamble line that journalctl prints before the entries. */
  const LOGS_BEGIN: Bytes := Ascii("-- Logs begin ")

  /** Lines that take part in classification: non-empty and not the preamble. */
  predicate Kept(line: Bytes) {
    |line| > 0 && !StartsWith(line, LOGS_BEGIN)
  }

  datatype Category = Crit | Warn | Ignored

  /** Where a line goes: critical rules are tried first, then warning rules. */
  function Classify(rules: Rules.Rules, eng: Rules.Engine, line: Bytes): (c: Category)
    ensures c == Crit <==> Kept(line) && Rules.IsMatch(rules.crit, eng, line)
    ensures c == Warn <==>
              Kept(line) && !Rules.IsMatch(rules.crit, eng, line) && Rules.IsMatch(rules.warn, eng, line)
  {
    if !Kept(line) then Ignored
    else if Rules.IsMatch(rules.crit, eng, line) then Crit
    else if Rules.IsMatch(rules.warn, eng, line) then Warn
    else Ignored
  }

  /** The lines of `ls` classified as `c`, in their order. */
  function Select(ls: seq<Bytes>, rules: Rules.Rules, eng: Rules.Engine, c: Category): seq<Bytes>
    decreases |ls|
  {
    if ls == [] then []
    else
      var init := Select(ls[..|ls| - 1], rules, eng, c);
      if Classify(rules, eng, ls[|ls| - 1]) == c then init + [ls[|ls| - 1]] else init
  }

  /** The indices in `ls` of the lines classified as `c`. */
  ghost function Positions(ls: seq<Bytes>, rules: Rules.Rules, eng: Rules.Engine, c: Category): seq<nat>
    decreases |ls|
  {
    if ls == [] then []
    else
      var init := Positions(ls[..|ls| - 1], rules, eng, c);
      if Classify(rules, eng, ls[|ls| - 1]) == c then init + [|ls| - 1] else init
  }

  /**
   * `sel` lists the lines of `ls` at the ascending indices `pos`, and `pos`
   * holds exactly the indices of the lines classified as `c`.
   */
  ghost predicate Enumerates(
    ls: seq<Bytes>, sel: seq<Bytes>, pos: seq<nat>, rules: Rules.Rules, eng: Rules.Engine, c: Category)
  {
    && |pos| == |sel|
    && (forall k :: 0 <= k < |pos| ==> pos[k] < |ls| && sel[k] == ls[pos[k]])
    && (forall k, k' :: 0 <= k < k' < |pos| ==> pos[k] < pos[k'])
    && (forall i :: 0 <= i < |ls| ==> (Classify(rules, eng, ls[i]) == c <==> i in pos))
  }

  /** Selection keeps every line of its category, nothing else, in journal order. */
  lemma {:induction false} SelectEnumerates(ls: seq<Bytes>, rules: Rules.Rules, eng: Rules.Engine, c: Category)
    ensures Enumerates(ls, Select(ls, rules, eng, c), Positions(ls, rules, eng, c), rules, eng, c)
    decreases |ls|
  {
    if ls != [] {
      var n := |ls| - 1;
      var init := ls[..n];
      SelectEnumerates(init, rules, eng, c);
      var s0, p0 := Select(init, rules, eng, c), Positions(init, rules, eng, c);
      assert forall i :: 0 <= i < n ==> ls[i] == init[i];
      assert forall k :: 0 <= k < |p0| ==> p0[k] < n;
    }
  }

  /** Every line falls into exactly one category. */
  lemma {:induction false} SelectPartition(ls: seq<Bytes>, rules: Rules.Rules, eng: Rules.Engine)
    ensures |Select(ls, rules, eng, Crit)| + |Select(ls, rules, eng, Warn)| + |Select(ls, rules, eng, Ignored)| == |ls|
    decreases |ls|
  {
    if ls != [] {
      SelectPartition(ls[..|ls| - 1], rules, eng);
    }
  }

  /** Lines grouped into critical and warning after applying the rule sets. */
  datatype Filtered = Filtered(crit: seq<Bytes>, warn: seq<Bytes>)

  /** What `Filtered::collect` yields for a journal. */
  function Collected(journal: Bytes, rules: Rules.Rules, eng: Rules.Engine): Filtered {
    var segs := Split(journal);
    Filtered(Select(segs, rules, eng, Crit), Select(segs, rules, eng, Warn))
  }

  /**
   * The classification promises: critical lines are kept segments matching
   * the critical rules, warning lines are kept segments matching the warning
   * rules but not the critical ones, every such segment is listed in its
   * list and never in the other, and no more lines are listed than there are
   * segments.
   */
  lemma CollectedLines(journal: Bytes, rules: Rules.Rules, eng: Rules.Engine)
    ensures var f := Collected(journal, rules, eng);
      && (forall line :: line in f.crit ==>
            line in Split(journal) && Kept(line) && Rules.IsMatch(rules.crit, eng, line))
      && (forall line :: line in f.warn ==>
            line in Split(journal) && Kept(line) &&
            !Rules.IsMatch(rules.crit, eng, line) && Rules.IsMatch(rules.warn, eng, line))
      && (forall line :: line in Split(journal) && Kept(line) && Rules.IsMatch(rules.crit, eng, line) ==>
            line in f.crit && line !in f.warn)
      && (forall line ::
            (line in Split(journal) && Kept(line) &&
             !Rules.IsMatch(rules.crit, eng, line) && Rules.IsMatch(rules.warn, eng, line)) ==>
            line in f.warn && line !in f.crit)
      && |f.crit| + |f.warn| <= |Split(journal)|
  {
    var segs := Split(journal);
    SelectEnumerates(segs, rules, eng, Crit);
    SelectEnumerates(segs, rules, eng, Warn);
    SelectPartition(segs, rules, eng);
    var f := Collected(journal, rules, eng);
    var pc, pw := Positions(segs, rules, eng, Crit), Positions(segs, rules, eng, Warn);
    forall line | line in f.crit
      ensures line in segs && Classify(rules, eng, line) == Crit
    {
      var k :| 0 <= k < |f.crit| && f.crit[k] == line;
      assert line == segs[pc[k]];
    }
    forall line | line in f.warn
      ensures line in segs && Classify(rules, eng, line) == Warn
    {
      var k :| 0 <= k < |f.warn| && f.warn[k] == line;
      assert line == segs[pw[k]];
    }
    forall line | line in segs && Classify(rules, eng, line) != Ignored
      ensures line in (if Classify(rules, eng, line) == Crit then f.crit else f.warn)
    {
      var i :| 0 <= i < |segs| && segs[i] == line;
      var c := Classify(rules, eng, line);
      var pos := if c == Crit then pc else pw;
      assert i in pos;
      var k :| 0 <= k < |pos| && pos[k] == i;
    }
  }

  /** `Filtered::collect`: one pass over the segments, pushing into two lists. */
  method Collect(journal: Bytes, rules: Rules.Rules, eng: Rules.Engine) returns (f: Filtered)
    ensures f == Collected(journal, rules, eng)
  {
    var segs := Split(journal);
    var crit: seq<Bytes> := [];
    var warn: seq<Bytes> := [];
    for i := 0 to |segs|
      invariant crit == Select(segs[..i], rules, eng, Crit)
      invariant warn == Select(segs[..i], rules, eng, Warn)
    {
      var line := segs[i];
      assert segs[..i + 1][..i] == segs[..i];
      if Kept(line) {
        if Rules.IsMatch(rules.crit, eng, line) {
          crit := crit + [line];
        } else if Rules.IsMatch(rules.warn, eng, line) {
          warn := warn + [line];
        }
      }
    }
    assert segs[..|segs|] == segs;
    f := Filtered(crit, warn);
  }

  // ===========================================================================
  // Status and outcome
  // ===========================================================================

  /** Return status according to Nagios guidelines. */
  datatype Status =
    | Ok(summary: string)
    | Warning(warnings: nat)
    | Critical(criticals: nat, warnings: nat)

  /** Severity from the true numbers of critical and warning lines. */
  function Severity(crits: nat, warns: nat): (s: Status)
    ensures s == Ok("no matches") <==> crits == 0 && warns == 0
    ensures s.Warning? <==> crits == 0 && warns > 0
    ensures s.Critical? <==> crits > 0
    ensures s.Warning? ==> s.warnings == warns
    ensures s.Critical? ==> s.criticals == crits && s.warnings == warns
  {
    if crits == 0 && warns == 0 then Ok("no matches")
    else if crits == 0 then Warning(warns)
    else Critical(crits, warns)
  }

  /** Overall status and the listing of the lines that matched. */
  datatype Outcome = Outcome(status: Result<Status, string>, message: Bytes)

  /** `Outcome::default`: success with an empty summary, and no message. */
  function DefaultOutcome(): (o: Outcome)
    ensures o.status == Success(Ok("")) && o.message == []
  {
    Outcome(Success(Ok("")), [])
  }

  // ===========================================================================
  // Rendering (`Outcome::push`)
  // ===========================================================================

  const STARS: Bytes := Ascii("*** ")
  const HITS: Bytes := Ascii(" hits")
  const TRUNCATED: Bytes := Ascii(" (truncated)")
  const STARS_END: Bytes := Ascii(" ***")
  const CRITICAL_TITLE: Bytes := Ascii("critical")
  const WARNING_TITLE: Bytes := Ascii("warning")

  function Min(a: nat, b: nat): nat {
    if a <= b then a else b
  }

  /** The text of a section header line, without its line breaks. */
  function HeaderLine(title: Bytes, truncated: bool): Bytes {
    STARS + title + HITS + (if truncated then TRUNCATED else []) + STARS_END
  }

  /** A section header: a blank line, the header line, a blank line. */
  function Header(title: Bytes, truncated: bool): Bytes {
    [NL] + HeaderLine(title, truncated) + [NL, NL]
  }

  /** Each line followed by a newline. */
  function Lines(ms: seq<Bytes>): Bytes
    decreases |ms|
  {
    if ms == [] then [] else ms[0] + [NL] + Lines(ms[1..])
  }

  /** The section `push` renders for a list of matches. */
  function Section(title: Bytes, ms: seq<Bytes>, maxLines: nat): Bytes {
    if ms == [] then [] else Header(title, |ms| > maxLines) + Lines(ms[..Min(|ms|, maxLines)])
  }

  /** A rendered section as lines: blank, header, blank, then the first lines shown. */
  function Block(title: Bytes, ms: seq<Bytes>, maxLines: nat): seq<Bytes> {
    if ms == [] then [] else [[], HeaderLine(title, |ms| > maxLines), []] + ms[..Min(|ms|, maxLines)]
  }

  lemma {:induction false} LinesSnoc(ms: seq<Bytes>, m: Bytes)
    ensures Lines(ms + [m]) == Lines(ms) + m + [NL]
    decreases |ms|
  {
    if ms == [] {
      assert [m][1..] == [];
    } else {
      assert (ms + [m])[1..] == ms[1..] + [m];
      LinesSnoc(ms[1..], m);
    }
  }

  /** Newline-terminated lines are the lines joined, with an empty last segment. */
  lemma {:induction false} LinesAsJoin(ms: seq<Bytes>)
    ensures Lines(ms) == Join(ms + [[]])
    decreases |ms|
  {
    if ms != [] {
      LinesAsJoin(ms[1..]);
      assert ms + [[]] == [ms[0]] + (ms[1..] + [[]]);
      JoinConcat([ms[0]], ms[1..] + [[]]);
    }
  }

  lemma HeaderLineNewlineFree(title: Bytes, truncated: bool)
    requires NL !in title
    ensures NL !in HeaderLine(title, truncated)
  {
    assert NL !in STARS && NL !in HITS && NL !in TRUNCATED && NL !in STARS_END;
  }

  /**
   * Layout of a rendered section: split into lines it is a blank line, the
   * header (marked truncated exactly when there are more matches than
   * `maxLines`), a blank line, and exactly the first min(n, maxLines)
   * matches, each ended by a newline.
   */
  lemma SectionLayout(title: Bytes, ms: seq<Bytes>, maxLines: nat)
    requires NL !in title && NewlineFree(ms) && ms != []
    ensures Section(title, ms, maxLines) == Join(Block(title, ms, maxLines) + [[]])
    ensures Split(Section(title, ms, maxLines)) == Block(title, ms, maxLines) + [[]]
  {
    var hl := HeaderLine(title, |ms| > maxLines);
    var shown := ms[..Min(|ms|, maxLines)];
    var head: seq<Bytes> := [[], hl, []];
    assert Join(head) == [NL] + hl + [NL] by {
      var tail: seq<Bytes> := [hl, []];
      var last: seq<Bytes> := [[]];
      assert head[1..] == tail;
      assert tail[1..] == last;
      assert Join(last) == [];
      assert Join(tail) == hl + [NL] + Join(last);
      assert Join(head) == head[0] + [NL] + Join(tail);
    }
    LinesAsJoin(shown);
    JoinConcat(head, shown + [[]]);
    assert head + (shown + [[]]) == Block(title, ms, maxLines) + [[]];
    assert Header(title, |ms| > maxLines) == Join(head) + [NL];
    HeaderLineNewlineFree(title, |ms| > maxLines);
    assert NewlineFree(Block(title, ms, maxLines) + [[]]);
    SplitJoin(Block(title, ms, maxLines) + [[]]);
  }

  /**
   * `Outcome::push`: appends a header, marked truncated when there are more
   * matches than `max_lines`, then at most `max_lines` matches, each with a
   * newline; with no matches the outcome is returned unchanged.
   */
  method Push(o: Outcome, title: Bytes, matches: seq<Bytes>, maxLines: nat) returns (r: Outcome)
    ensures r == o.(message := o.message + Section(title, matches, maxLines))
    ensures matches == [] ==> r == o
  {
    if matches == [] {
      assert o.message + [] == o.message;
      return o;
    }
    var msg := o.message + Header(title, |matches| > maxLines);
    ghost var start := msg;
    var n := Min(|matches|, maxLines);
    for i := 0 to n
      invariant msg == start + Lines(matches[..i])
    {
      LinesSnoc(matches[..i], matches[i]);
      assert matches[..i + 1] == matches[..i] + [matches[i]];
      msg := msg + matches[i] + [NL];
    }
    assert Section(title, matches, maxLines) == Header(title, |matches| > maxLines) + Lines(matches[..n]);
    assert msg == o.message + Section(title, matches, maxLines);
    r := Outcome(o.status, msg);
  }

  // ===========================================================================
  // Classified outcome (`Outcome::matched`)
  // ===========================================================================

  /** What `Outcome::matched` yields: both sections, critical first, and the severity. */
  function Evaluate(journal: Bytes, rules: Rules.Rules, eng: Rules.Engine, maxLines: nat): Outcome {
    var f := Collected(journal, rules, eng);
    Outcome(
      Success(Severity(|f.crit|, |f.warn|)),
      Section(CRITICAL_TITLE, f.crit, maxLines) + Section(WARNING_TITLE, f.warn, maxLines))
  }

  /** `Outcome::matched`: starts from the default outcome and pushes both sections. */
  method Matched(journal: Bytes, rules: Rules.Rules, eng: Rules.Engine, maxLines: nat) returns (res: Outcome)
    ensures res == Evaluate(journal, rules, eng, maxLines)
  {
    res := DefaultOutcome();
    var filt := Collect(journal, rules, eng);
    ghost var sc, sw := Section(CRITICAL_TITLE, filt.crit, maxLines), Section(WARNING_TITLE, filt.warn, maxLines);
    res := Push(res, CRITICAL_TITLE, filt.crit, maxLines);
    assert res.message == sc by {
      assert [] + sc == sc;
    }
    res := Push(res, WARNING_TITLE, filt.warn, maxLines);
    assert res.message == sc + sw;
    res := res.(status := Success(Severity(|filt.crit|, |filt.warn|)));
  }

  lemma SelectedNewlineFree(journal: Bytes, rules: Rules.Rules, eng: Rules.Engine, c: Category)
    ensures NewlineFree(Select(Split(journal), rules, eng, c))
  {
    var segs := Split(journal);
    SelectEnumerates(segs, rules, eng, c);
    var p := Positions(segs, rules, eng, c);
    assert forall k :: 0 <= k < |p| ==> Select(segs, rules, eng, c)[k] == segs[p[k]];
  }

  /**
   * Layout of the classified report: split into lines, it is the critical
   * block then the warning block (each present only when it has matches)
   * and a final empty segment; with no matches the message is empty.
   */
  lemma EvaluateLayout(journal: Bytes, rules: Rules.Rules, eng: Rules.Engine, maxLines: nat)
    ensures var f := Collected(journal, rules, eng);
      Split(Evaluate(journal, rules, eng, maxLines).message)
        == Block(CRITICAL_TITLE, f.crit, maxLines) + Block(WARNING_TITLE, f.warn, maxLines) + [[]]
    ensures var f := Collected(journal, rules, eng);
      Evaluate(journal, rules, eng, maxLines).message == [] <==> f.crit == [] && f.warn == []
  {
    var f := Collected(journal, rules, eng);
    SelectedNewlineFree(journal, rules, eng, Crit);
    SelectedNewlineFree(journal, rules, eng, Warn);
    assert NL !in CRITICAL_TITLE && NL !in WARNING_TITLE;
    var bc, bw := Block(CRITICAL_TITLE, f.crit, maxLines), Block(WARNING_TITLE, f.warn, maxLines);
    SectionAsJoin(CRITICAL_TITLE, f.crit, maxLines);
    SectionAsJoin(WARNING_TITLE, f.warn, maxLines);
    JoinTerminated(bc, bw);
    SectionNewlineFreeBlocks(bc, bw);
    SplitJoin(bc + bw + [[]]);
    assert f.crit != [] ==> |bc| > 0;
    assert f.warn != [] ==> |bw| > 0;
  }

  /** A section, empty or not, is its block joined with a final empty segment. */
  lemma SectionAsJoin(title: Bytes, ms: seq<Bytes>, maxLines: nat)
    requires NL !in title && NewlineFree(ms)
    ensures Section(title, ms, maxLines) == Join(Block(title, ms, maxLines) + [[]])
    ensures NewlineFree(Block(title, ms, maxLines) + [[]])
  {
    if ms == [] {
      assert Block(title, ms, maxLines) + [[]] == [[]];
    } else {
      SectionLayout(title, ms, maxLines);
      HeaderLineNewlineFree(title, |ms| > maxLines);
    }
  }

  /** Two newline-terminated runs of lines, one after the other. */
  lemma JoinTerminated(x: seq<Bytes>, y: seq<Bytes>)
    ensures Join(x + [[]]) + Join(y + [[]]) == Join(x + y + [[]])
  {
    var last: seq<Bytes> := [[]];
    assert Join(last) == [];
    if x == [] {
      assert x + last == last && x + y + last == y + last;
    } else {
      JoinConcat(x, last);
      JoinConcat(x, y + last);
      assert x + y + last == x + (y + last);
    }
  }

  lemma SectionNewlineFreeBlocks(bc: seq<Bytes>, bw: seq<Bytes>)
    requires NewlineFree(bc + [[]]) && NewlineFree(bw + [[]])
    ensures NewlineFree(bc + bw + [[]])
  {
    assert forall k :: 0 <= k < |bc| ==> (bc + [[]])[k] == bc[k];
    assert forall k :: 0 <= k < |bw| ==> (bw + [[]])[k] == bw[k];
  }

  /**
   * The severity counts every matching line of the journal, however many are
   * shown: `Ok("no matches")` exactly when no line is critical or warning,
   * `Critical` whenever some line is critical.
   */
  lemma EvaluateStatus(journal: Bytes, rules: Rules.Rules, eng: Rules.Engine, maxLines: nat)
    ensures var f := Collected(journal, rules, eng);
      Evaluate(journal, rules, eng, maxLines).status == Success(Severity(|f.crit|, |f.warn|))
    ensures Evaluate(journal, rules, eng, maxLines).status == Success(Ok("no matches")) <==>
              AllIgnored(Split(journal), rules, eng)
    ensures Evaluate(journal, rules, eng, maxLines).status.value.Critical? <==>
              SomeLineIs(Split(journal), rules, eng, Crit)
  {
    var segs := Split(journal);
    SeverityOfLines(segs, rules, eng);
    var s := Severity(|Select(segs, rules, eng, Crit)|, |Select(segs, rules, eng, Warn)|);
    assert Evaluate(journal, rules, eng, maxLines).status == Success(s);
  }

  /** Every line of `ls` is ignored. */
  predicate AllIgnored(ls: seq<Bytes>, rules: Rules.Rules, eng: Rules.Engine) {
    forall i :: 0 <= i < |ls| ==> Classify(rules, eng, ls[i]) == Ignored
  }

  /** Some line of `ls` falls into category `c`. */
  predicate SomeLineIs(ls: seq<Bytes>, rules: Rules.Rules, eng: Rules.Engine, c: Category) {
    exists i :: 0 <= i < |ls| && Classify(rules, eng, ls[i]) == c
  }

  /** The severity of a run of lines, from the categories of its lines. */
  lemma SeverityOfLines(ls: seq<Bytes>, rules: Rules.Rules, eng: Rules.Engine)
    ensures var s := Severity(|Select(ls, rules, eng, Crit)|, |Select(ls, rules, eng, Warn)|);
      s == Ok("no matches") <==> AllIgnored(ls, rules, eng)
    ensures var s := Severity(|Select(ls, rules, eng, Crit)|, |Select(ls, rules, eng, Warn)|);
      s.Critical? <==> SomeLineIs(ls, rules, eng, Crit)
  {
    SelectNonEmpty(ls, rules, eng, Crit);
    SelectNoneSelected(ls, rules, eng);
  }

  /** No line is selected in either category exactly when every line is ignored. */
  lemma {:induction false} SelectNoneSelected(ls: seq<Bytes>, rules: Rules.Rules, eng: Rules.Engine)
    ensures Select(ls, rules, eng, Crit) == [] && Select(ls, rules, eng, Warn) == [] <==>
              forall i :: 0 <= i < |ls| ==> Classify(rules, eng, ls[i]) == Ignored
    decreases |ls|
  {
    if ls != [] {
      var init := ls[..|ls| - 1];
      SelectNoneSelected(init, rules, eng);
      assert forall i :: 0 <= i < |init| ==> init[i] == ls[i];
    }
  }

  /** Some line of a category is selected exactly when some line has that category. */
  lemma {:induction false} SelectNonEmpty(ls: seq<Bytes>, rules: Rules.Rules, eng: Rules.Engine, c: Category)
    ensures |Select(ls, rules, eng, c)| > 0 <==> exists i :: 0 <= i < |ls| && Classify(rules, eng, ls[i]) == c
    decreases |ls|
  {
    if ls != [] {
      var init := ls[..|ls| - 1];
      SelectNonEmpty(init, rules, eng, c);
      assert forall i :: 0 <= i < |init| ==> init[i] == ls[i];
    }
  }

  // ===========================================================================
  // Exit status examination (`Check::examine`)
  // ===========================================================================

  /** `subprocess::ExitStatus`. */
  datatype ExitStatus =
    | Exited(code: nat)
    | Signaled(signal: nat)
    | Other(value: int)
    | Undetermined

  /** The `{:?}` rendering of an exit status. */
  function Debug(x: ExitStatus): string {
    match x
    case Exited(c) => "Exited(" + Decimal(c) + ")"
    case Signaled(s) => "Signaled(" + Decimal(s) + ")"
    case Other(v) => "Other(" + SignedDecimal(v) + ")"
    case Undetermined => "Undetermined"
  }

  /** Reads back a signed decimal number. */
  function ParseSigned(s: string): Option<int> {
    if |s| >= 1 && s[0] == '-' then
      match ParseDecimal(s[1..])
      case Some(n) => Some(-(n as int))
      case None => None
    else
      match ParseDecimal(s)
      case Some(n) => Some(n)
      case None => None
  }

  lemma {:induction false} ParseSignedRoundTrip(i: int)
    ensures ParseSigned(SignedDecimal(i)) == Some(i)
  {
    if i < 0 {
      ParseDecimalRoundTrip(-i);
      assert SignedDecimal(i)[1..] == Decimal(-i);
    } else {
      ParseDecimalRoundTrip(i);
      assert IsDigit(SignedDecimal(i)[0]);
    }
  }

  /** The argument between `name(` and the closing parenthesis, when `s` has that shape. */
  function Argument(name: string, s: string): Option<string> {
    if |s| >= |name| + 2 && s[..|name| + 1] == name + "(" && s[|s| - 1] == ')'
    then Some(s[|name| + 1..|s| - 1])
    else None
  }

  lemma ArgumentOf(name: string, other: string, arg: string)
    requires |other| >= 1 && |name| >= 1 && other[0] != name[0]
    ensures Argument(name, name + "(" + arg + ")") == Some(arg)
    ensures Argument(name, other + "(" + arg + ")") == None
  {
    var s := name + "(" + arg + ")";
    assert s[..|name| + 1] == name + "(";
    assert s[|name| + 1..|s| - 1] == arg;
    var t := other + "(" + arg + ")";
    if |t| >= |name| + 2 {
      assert t[..|name| + 1][0] == other[0];
    }
  }

  /** Reads an exit status back from its `{:?}` rendering. */
  function ParseDebug(s: string): Option<ExitStatus> {
    if s == "Undetermined" then Some(Undetermined)
    else match Argument("Exited", s)
      case Some(a) => (match ParseDecimal(a) case Some(n) => Some(Exited(n)) case None => None)
      case None =>
        match Argument("Signaled", s)
        case Some(a) => (match ParseDecimal(a) case Some(n) => Some(Signaled(n)) case None => None)
        case None =>
          match Argument("Other", s)
          case Some(a) => (match ParseSigned(a) case Some(v) => Some(Other(v)) case None => None)
          case None => None
  }

  lemma ExitedRoundTrip(c: nat)
    ensures ParseDebug(Debug(Exited(c))) == Some(Exited(c))
  {
    var d := Debug(Exited(c));
    assert d == "Exited" + "(" + Decimal(c) + ")";
    assert d != "Undetermined" by { assert d[0] != "Undetermined"[0]; }
    ArgumentOf("Exited", "Signaled", Decimal(c));
    assert Argument("Exited", d) == Some(Decimal(c));
    ParseDecimalRoundTrip(c);
  }

  lemma SignaledRoundTrip(c: nat)
    ensures ParseDebug(Debug(Signaled(c))) == Some(Signaled(c))
  {
    var d := Debug(Signaled(c));
    assert d == "Signaled" + "(" + Decimal(c) + ")";
    assert d != "Undetermined" by { assert d[0] != "Undetermined"[0]; }
    ArgumentOf("Exited", "Signaled", Decimal(c));
    ArgumentOf("Signaled", "Exited", Decimal(c));
    assert Argument("Exited", d) == None;
    assert Argument("Signaled", d) == Some(Decimal(c));
    ParseDecimalRoundTrip(c);
  }

  lemma OtherRoundTrip(v: int)
    ensures ParseDebug(Debug(Other(v))) == Some(Other(v))
  {
    var a := SignedDecimal(v);
    var d := Debug(Other(v));
    assert d != "Undetermined" by { assert d[0] != "Undetermined"[0]; }
    ArgumentOf("Exited", "Other", a);
    ArgumentOf("Signaled", "Other", a);
    ArgumentOf("Other", "Exited", a);
    assert Argument("Exited", d) == None && Argument("Signaled", d) == None;
    assert Argument("Other", d) == Some(a);
    ParseSignedRoundTrip(v);
  }

  /** The failure text identifies the exit status: its rendering can be read back. */
  lemma DebugRoundTrip(x: ExitStatus)
    ensures ParseDebug(Debug(x)) == Some(x)
  {
    match x
    case Exited(c) => ExitedRoundTrip(c);
    case Signaled(c) => SignaledRoundTrip(c);
    case Other(v) => OtherRoundTrip(v);
    case Undetermined =>
  }

  /** Different exit statuses give different failure texts. */
  lemma DebugInjective(x: ExitStatus, y: ExitStatus)
    requires Debug(x) == Debug(y)
    ensures x == y
  {
    DebugRoundTrip(x);
    DebugRoundTrip(y);
  }

  /** journalctl exits with 0 or 1 when it ran properly. */
  predicate SuccessExit(x: ExitStatus) {
    x.Exited? && x.code <= 1
  }

  /** `Outcome::empty`: journalctl printed nothing. */
  function Empty(): (o: Outcome)
    ensures o.status == Success(Ok("no output")) && o.message == []
  {
    Outcome(Success(Ok("no output")), [])
  }

  const STDOUT_HEADER: Bytes := Ascii("\n*** stdout ***\n")
  const STDERR_HEADER: Bytes := Ascii("\n*** stderr ***\n")

  /**
   * `Outcome::failed`: an error naming the exit status, and a message
   * holding stdout and then stderr, each under its own header.
   */
  function Failed(exit: ExitStatus, stdout: Bytes, stderr: Bytes): (o: Outcome)
    ensures o.status == Failure("journalctl failed with " + Debug(exit))
    ensures |o.message| == |STDOUT_HEADER| + |stdout| + |STDERR_HEADER| + |stderr|
    ensures StartsWith(o.message, STDOUT_HEADER)
    ensures o.message[|STDOUT_HEADER|..|STDOUT_HEADER| + |stdout|] == stdout
    ensures o.message[|STDOUT_HEADER| + |stdout|..|STDOUT_HEADER| + |stdout| + |STDERR_HEADER|] == STDERR_HEADER
    ensures o.message[|o.message| - |stderr|..] == stderr
  {
    var m := STDOUT_HEADER + stdout + STDERR_HEADER + stderr;
    assert m[..|STDOUT_HEADER|] == STDOUT_HEADER;
    assert m[|STDOUT_HEADER|..|STDOUT_HEADER| + |stdout|] == stdout;
    assert m[|STDOUT_HEADER| + |stdout|..|STDOUT_HEADER| + |stdout| + |STDERR_HEADER|] == STDERR_HEADER;
    assert m[|m| - |stderr|..] == stderr;
    Outcome(Failure("journalctl failed with " + Debug(exit)), m)
  }

  /** `Outcome::error`: an error and no message. */
  function Error(e: string): (o: Outcome)
    ensures o.status == Failure(e) && o.message == []
  {
    Outcome(Failure(e), [])
  }

  /** Program options the check uses. */
  datatype Opt = Opt(journalctl: string, lines: nat, span: string, statefile: Option<string>)

  /** Program options and rule sets. */
  datatype Check = Check(opt: Opt, rules: Rules.Rules)

  /**
   * `Check::examine`: a proper exit with no output at all is "no output"; a
   * proper exit with output is classified, whatever stderr holds; anything
   * else—another exit status, or only stderr output—is a failure.
   */
  function Examine(check: Check, eng: Rules.Engine, exit: ExitStatus, stdout: Bytes, stderr: Bytes): (o: Outcome)
    ensures SuccessExit(exit) && stdout == [] && stderr == [] ==> o == Empty()
    ensures SuccessExit(exit) && stdout != [] ==> o == Evaluate(stdout, check.rules, eng, check.opt.lines)
    ensures !SuccessExit(exit) || (stdout == [] && stderr != []) ==> o == Failed(exit, stdout, stderr)
    ensures o.status.Failure? <==> !SuccessExit(exit) || (stdout == [] && stderr != [])
  {
    if SuccessExit(exit) && stdout == [] && stderr == [] then Empty()
    else if SuccessExit(exit) && stdout != [] then Evaluate(stdout, check.rules, eng, check.opt.lines)
    else Failed(exit, stdout, stderr)
  }

  /** "No output" is never mistaken for a classified run. */
  lemma NoOutputDistinct(journal: Bytes, rules: Rules.Rules, eng: Rules.Engine, maxLines: nat)
    ensures Evaluate(journal, rules, eng, maxLines) != Empty()
  {
    var s := Evaluate(journal, rules, eng, maxLines).status.value;
    assert s.Ok? ==> s.summary == "no matches";
    assert "no matches" != "no output" by {
      assert "no matches"[3] != "no output"[3];
    }
  }

  // ===========================================================================
  // Running journalctl (`Check::run`)
  // ===========================================================================

  /** A program and its arguments (`subprocess::Exec`). */
  datatype Command = Command(program: string, args: seq<string>)

  const LINES_FLAG: string := "--lines="
  const SINCE_FLAG: string := "--since=-"
  const CURSOR_FLAG: string := "--cursor-file="

  /**
   * The journalctl invocation: no pager, ten times the display limit of
   * lines, the time span counted back from now, and the cursor file only
   * when a state file is configured.
   */
  function BuildCommand(opt: Opt): (cmd: Command)
    ensures cmd.program == opt.journalctl
    ensures |cmd.args| == if opt.statefile.Some? then 4 else 3
    ensures cmd.args[0] == "--no-pager"
    ensures cmd.args[1] == LINES_FLAG + Decimal(10 * opt.lines)
    ensures ParseDecimal(cmd.args[1][|LINES_FLAG|..]) == Some(10 * opt.lines)
    ensures cmd.args[2] == SINCE_FLAG + opt.span
    ensures opt.statefile.Some? ==> cmd.args[3] == CURSOR_FLAG + opt.statefile.value
  {
    var linesArg := LINES_FLAG + Decimal(10 * opt.lines);
    ParseDecimalRoundTrip(10 * opt.lines);
    assert linesArg[..|LINES_FLAG|] == LINES_FLAG;
    assert linesArg[|LINES_FLAG|..] == Decimal(10 * opt.lines);
    var base := ["--no-pager", linesArg, SINCE_FLAG + opt.span];
    var args := if opt.statefile.Some? then base + [CURSOR_FLAG + opt.statefile.value] else base;
    Command(opt.journalctl, args)
  }

  /** What `capture` returns: exit status and both output streams. */
  datatype Capture = Capture(exitStatus: ExitStatus, stdout: Bytes, stderr: Bytes)

  /**
   * The outside world of a run: `capture(cmd, n)` is what the n-th
   * invocation of `cmd` (counted from 0) returns, or the error of spawning
   * it; `create(path)` truncates a file, or fails.
   */
  datatype Oracle = Oracle(capture: (Command, nat) -> Result<Capture, string>, create: string -> Result<(), string>)

  /** What a run does to the outside world, in order. */
  datatype Event = Invoked(cmd: Command) | Truncated(path: string)

  function Invocations(log: seq<Event>): nat
    decreases |log|
  {
    if log == [] then 0 else (if log[0].Invoked? then 1 else 0) + Invocations(log[1..])
  }

  /** Stderr text journalctl writes when the cursor in the state file is unusable. */
  const SEEK_FAILED: Bytes := Ascii("Failed to seek to cursor")

  /** The retry condition: a state file is configured and journalctl could not seek to its cursor. */
  predicate RetryWanted(opt: Opt, first: Result<Capture, string>) {
    opt.statefile.Some? && first.Success? && Contains(first.value.stderr, SEEK_FAILED)
  }

  /** The end of `run`: a captured result is examined, a capture error becomes an error outcome. */
  function Conclude(check: Check, eng: Rules.Engine, cap: Result<Capture, string>): (o: Outcome)
    ensures cap.Failure? ==>
              o == Error("Failed to execute '" + check.opt.journalctl + "': " + cap.error)
    ensures cap.Success? ==>
              o == Examine(check, eng, cap.value.exitStatus, cap.value.stdout, cap.value.stderr)
  {
    match cap
    case Success(c) => Examine(check, eng, c.exitStatus, c.stdout, c.stderr)
    case Failure(e) => Error("Failed to execute '" + check.opt.journalctl + "': " + e)
  }

  /**
   * `Check::run`: invokes journalctl once; only when a state file is set and
   * the first capture's stderr says the cursor could not be sought, it
   * truncates the state file and, if that worked, invokes the same command
   * once more. The last result decides the outcome.
   */
  method Run(check: Check, eng: Rules.Engine, oracle: Oracle) returns (o: Outcome, ghost log: seq<Event>)
    ensures var cmd := BuildCommand(check.opt);
      !RetryWanted(check.opt, oracle.capture(cmd, 0)) ==> o == Conclude(check, eng, oracle.capture(cmd, 0))
    ensures var cmd := BuildCommand(check.opt);
      RetryWanted(check.opt, oracle.capture(cmd, 0)) && oracle.create(check.opt.statefile.value).Failure? ==>
        o == Conclude(check, eng, Failure(oracle.create(check.opt.statefile.value).error))
    ensures var cmd := BuildCommand(check.opt);
      RetryWanted(check.opt, oracle.capture(cmd, 0)) && oracle.create(check.opt.statefile.value).Success? ==>
        o == Conclude(check, eng, oracle.capture(cmd, 1))
    ensures var cmd := BuildCommand(check.opt);
      && (!RetryWanted(check.opt, oracle.capture(cmd, 0)) ==> log == [Invoked(cmd)])
      && (RetryWanted(check.opt, oracle.capture(cmd, 0)) ==>
            var sf := check.opt.statefile.value;
            log == if oracle.create(sf).Success?
                   then [Invoked(cmd), Truncated(sf), Invoked(cmd)]
                   else [Invoked(cmd), Truncated(sf)])
    ensures 1 <= Invocations(log) <= 2
    ensures Invocations(log) == 2 <==>
              RetryWanted(check.opt, oracle.capture(BuildCommand(check.opt), 0)) &&
              oracle.create(check.opt.statefile.value).Success?
  {
    var cmd := BuildCommand(check.opt);
    var cap := oracle.capture(cmd, 0);
    log := [Invoked(cmd)];
    if check.opt.statefile.Some? && cap.Success? && Contains(cap.value.stderr, SEEK_FAILED) {
      var sf := check.opt.statefile.value;
      var created := oracle.create(sf);
      log := log + [Truncated(sf)];
      assert Invocations([Truncated(sf)]) == 0;
      if created.Success? {
        cap := oracle.capture(cmd, 1);
        log := log + [Invoked(cmd)];
      } else {
        cap := Failure(created.error);
      }
    }
    o := Conclude(check, eng, cap);
  }

  // ===========================================================================
  // Scenarios of the unit tests in check.rs
  // ===========================================================================

  /** A one-line journal is classified by that line alone. */
  lemma SingleLineStatus(line: Bytes, rules: Rules.Rules, eng: Rules.Engine, maxLines: nat)
    requires NL !in line
    ensures Evaluate(line, rules, eng, maxLines).status == Success(
              match Classify(rules, eng, line)
              case Crit => Critical(1, 0)
              case Warn => Warning(1)
              case Ignored => Ok("no matches"))
  {
    SplitSingle(line);
    var segs := [line];
    assert segs[..0] == [] && segs[0] == line;
    var c := Classify(rules, eng, line);
    assert Select(segs, rules, eng, Crit) == if c == Crit then [line] else [];
    assert Select(segs, rules, eng, Warn) == if c == Warn then [line] else [];
  }

  /**
   * Test `outcome_should_list_matches`, for any title and matches: with room
   * for all of them, the header is not marked truncated and every match
   * follows it on its own line.
   */
  lemma OutcomeListsMatches(title: Bytes, m1: Bytes, m2: Bytes)
    ensures Section(title, [m1, m2], 10) == Header(title, false) + m1 + [NL] + m2 + [NL]
  {
    var ms := [m1, m2];
    assert ms[..Min(|ms|, 10)] == ms;
    assert ms[1..] == [m2] && [m2][1..] == [];
    assert Lines([m2]) == m2 + [NL];
    assert Lines(ms) == m1 + [NL] + (m2 + [NL]);
  }

  /**
   * Test `outcome_should_truncate_lines`, for any title and matches: with
   * room for one line, the header says truncated and only the first match
   * is listed.
   */
  lemma OutcomeTruncatesLines(title: Bytes, m1: Bytes, m2: Bytes)
    ensures Section(title, [m1, m2], 1) == Header(title, true) + m1 + [NL]
  {
    var ms := [m1, m2];
    assert ms[..Min(|ms|, 1)] == [m1];
    assert [m1][1..] == [];
    assert Lines([m1]) == m1 + [NL];
  }

  /** The header line of a title given as text, as the text it spells. */
  lemma HeaderLineText(t: string, truncated: bool)
    ensures HeaderLine(Ascii(t), truncated)
              == Ascii("*** " + t + " hits" + (if truncated then " (truncated)" else "") + " ***")
  {
    var tr := if truncated then " (truncated)" else "";
    assert Ascii(tr) == if truncated then TRUNCATED else [];
    AsciiConcat("*** ", t);
    AsciiConcat("*** " + t, " hits");
    AsciiConcat("*** " + t + " hits", tr);
    AsciiConcat("*** " + t + " hits" + tr, " ***");
  }

  /** The header block as the text `line` (the header line between newlines) and one more newline. */
  lemma HeaderText(t: string, truncated: bool, line: string)
    requires line == "\n*** " + t + " hits" + (if truncated then " (truncated)" else "") + " ***\n"
    ensures Header(Ascii(t), truncated) == Ascii(line) + Ascii("\n")
  {
    var inner := "*** " + t + " hits" + (if truncated then " (truncated)" else "") + " ***";
    assert line == "\n" + inner + "\n";
    assert HeaderLine(Ascii(t), truncated) == Ascii(inner) by { HeaderLineText(t, truncated); }
    assert Ascii(line) == [NL] + Ascii(inner) + [NL] by {
      AsciiConcat("\n", inner);
      AsciiConcat("\n" + inner, "\n");
    }
    assert Ascii("\n") == [NL];
  }

  /**
   * Test `outcome_should_list_matches` with its own data: the section for
   * `test1` and two matches is the expected text of the test, piece by piece.
   */
  lemma OutcomeListsMatchesText()
    ensures Section(Ascii("test1"), [Ascii("first match"), Ascii("second match")], 10)
              == Ascii("\n*** test1 hits ***\n") + Ascii("\n") + Ascii("first match\n") + Ascii("second match\n")
  {
    var h := Ascii("\n*** test1 hits ***\n") + Ascii("\n");
    assert Header(Ascii("test1"), false) == h by { HeaderText("test1", false, "\n*** test1 hits ***\n"); }
    assert Ascii("first match\n") == Ascii("first match") + [NL] by { AsciiConcat("first match", "\n"); }
    assert Ascii("second match\n") == Ascii("second match") + [NL] by { AsciiConcat("second match", "\n"); }
    OutcomeListsMatches(Ascii("test1"), Ascii("first match"), Ascii("second match"));
  }

  /**
   * Test `outcome_should_truncate_lines` with its own data: with one line
   * allowed, the section for `test2` is the expected truncated text.
   */
  lemma OutcomeTruncatesLinesText()
    ensures Section(Ascii("test2"), [Ascii("first match"), Ascii("second match")], 1)
              == Ascii("\n*** test2 hits (truncated) ***\n") + Ascii("\n") + Ascii("first match\n")
  {
    var h := Ascii("\n*** test2 hits (truncated) ***\n") + Ascii("\n");
    assert Header(Ascii("test2"), true) == h by { HeaderText("test2", true, "\n*** test2 hits (truncated) ***\n"); }
    assert Ascii("first match\n") == Ascii("first match") + [NL] by { AsciiConcat("first match", "\n"); }
    OutcomeTruncatesLines(Ascii("test2"), Ascii("first match"), Ascii("second match"));
  }

  /** Test `should_fail_on_exit_status`. */
  lemma FailsOnExitStatus(check: Check, eng: Rules.Engine)
    ensures Examine(check, eng, Exited(3), [], []).status == Failure("journalctl failed with Exited(3)")
  {
    assert Debug(Exited(3)) == "Exited(3)" by {
      assert Decimal(3) == "3";
    }
    assert "journalctl failed with " + "Exited(3)" == "journalctl failed with Exited(3)";
  }

  /**
   * Test `should_ignore_first_line`, for any rest of the line and any rules:
   * the preamble line is never classified, so a journal of just that line
   * has no matches.
   */
  lemma IgnoresFirstLine(check: Check, eng: Rules.Engine, exitCode: nat, rest: Bytes)
    requires exitCode <= 1 && NL !in rest
    ensures Examine(check, eng, Exited(exitCode), LOGS_BEGIN + rest, []).status == Success(Ok("no matches"))
  {
    var line := LOGS_BEGIN + rest;
    assert line[..|LOGS_BEGIN|] == LOGS_BEGIN;
    assert NL !in LOGS_BEGIN;
    assert Classify(check.rules, eng, line) == Ignored;
    SingleLineStatus(line, check.rules, eng, check.opt.lines);
    assert Evaluate(line, check.rules, eng, check.opt.lines).status == Success(Ok("no matches"));
    assert SuccessExit(Exited(exitCode)) && line != [];
    assert Examine(check, eng, Exited(exitCode), line, []) == Evaluate(line, check.rules, eng, check.opt.lines);
  }

  /**
   * Tests `should_match_on_exit_0_or_1` and `should_disregard_stderr_on_exit_0_1`:
   * after a proper exit, stderr has no influence once there is output.
   */
  lemma DisregardsStderr(check: Check, eng: Rules.Engine, code: nat, stdout: Bytes, e1: Bytes, e2: Bytes)
    requires code <= 1 && stdout != []
    ensures Examine(check, eng, Exited(code), stdout, e1) == Examine(check, eng, Exited(code), stdout, e2)
  {
  }
}
