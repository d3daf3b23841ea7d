/**
 * Log matching rules: a rule set pairs match patterns with exception
 * patterns, and the rules of a check are a critical and a warning rule set
 * loaded together from one YAML document.
 *
 * The regular-expression library is not modelled. An `Engine` stands for
 * it: whether a pattern compiles, and whether a pattern matches somewhere
 * in a line. Every statement below holds for every engine.
 */
module Rules {
  import opened Wrappers
  import opened Bytes

  /** The regular-expression library, left abstract. */
  datatype Engine = Engine(compiles: string -> bool, accepts: (string, Bytes) -> bool)

  /** Pair of pattern sets for matching and excepting lines (`RegexSet` each). */
  datatype RuleSet = RuleSet(matches: seq<string>, except: seq<string>)

  /** The four pattern lists of a rules document. */
  datatype RulesFile = RulesFile(
    criticalpatterns: seq<string>,
    criticalexceptions: seq<string>,
    warningpatterns: seq<string>,
    warningexceptions: seq<string>)

  /** Pair of rule sets for critical and warning rules. */
  datatype Rules = Rules(crit: RuleSet, warn: RuleSet)

  /** Whether some pattern of a set matches the line (`RegexSet::is_match`). */
  function AnyMatch(eng: Engine, patterns: seq<string>, line: Bytes): (r: bool)
    ensures r <==> exists i :: 0 <= i < |patterns| && eng.accepts(patterns[i], line)
    decreases |patterns|
  {
    if patterns == [] then false
    else eng.accepts(patterns[0], line) || AnyMatch(eng, patterns[1..], line)
  }

  /** Whether every pattern of a set compiles (`RegexSet::new` succeeds). */
  function AllCompile(eng: Engine, patterns: seq<string>): (r: bool)
    ensures r <==> forall i :: 0 <= i < |patterns| ==> eng.compiles(patterns[i])
    decreases |patterns|
  {
    if patterns == [] then true
    else eng.compiles(patterns[0]) && AllCompile(eng, patterns[1..])
  }

  /**
   * `RuleSet::new`: compiles the match patterns, then the exceptions; the
   * first set that fails names itself in the error.
   */
  function NewRuleSet(patterns: seq<string>, exceptions: seq<string>, title: string, eng: Engine)
    : (r: Result<RuleSet, string>)
    ensures r.Success? <==>
              (forall i :: 0 <= i < |patterns| ==> eng.compiles(patterns[i])) &&
              (forall j :: 0 <= j < |exceptions| ==> eng.compiles(exceptions[j]))
    ensures r.Success? ==> r.value.matches == patterns && r.value.except == exceptions
    ensures (exists i :: 0 <= i < |patterns| && !eng.compiles(patterns[i])) ==>
              r == Failure("Failed to load " + title + " patterns")
    ensures (forall i :: 0 <= i < |patterns| ==> eng.compiles(patterns[i])) &&
            (exists j :: 0 <= j < |exceptions| && !eng.compiles(exceptions[j])) ==>
              r == Failure("Failed to load " + title + " exceptions")
  {
    if !AllCompile(eng, patterns) then Failure("Failed to load " + title + " patterns")
    else if !AllCompile(eng, exceptions) then Failure("Failed to load " + title + " exceptions")
    else Success(RuleSet(patterns, exceptions))
  }

  /** `RuleSet::is_match`: a match pattern fires and no exception does. */
  function IsMatch(rs: RuleSet, eng: Engine, line: Bytes): (r: bool)
    ensures r <==>
              (exists i :: 0 <= i < |rs.matches| && eng.accepts(rs.matches[i], line)) &&
              !(exists j :: 0 <= j < |rs.except| && eng.accepts(rs.except[j], line))
  {
    AnyMatch(eng, rs.matches, line) && !AnyMatch(eng, rs.except, line)
  }

  /** An exception that fires overrides every match pattern. */
  lemma ExceptionOverrides(rs: RuleSet, eng: Engine, line: Bytes, j: nat)
    requires j < |rs.except| && eng.accepts(rs.except[j], line)
    ensures !IsMatch(rs, eng, line)
  {
  }

  /** A rule set without match patterns never matches, whatever its exceptions. */
  lemma NoPatternsNoMatch(rs: RuleSet, eng: Engine, line: Bytes)
    requires rs.matches == []
    ensures !IsMatch(rs, eng, line)
  {
  }

  /** `RuleSet::default`: empty pattern sets, which never match. */
  function DefaultRuleSet(): (rs: RuleSet)
    ensures forall eng, line :: !IsMatch(rs, eng, line)
  {
    RuleSet([], [])
  }

  /** The `unwrap` calls in `RuleSet::default` cannot fail: empty sets always compile. */
  lemma DefaultRuleSetCompiles(title: string, eng: Engine)
    ensures NewRuleSet([], [], title, eng) == Success(DefaultRuleSet())
  {
  }

  /** `Rules::default`: two default rule sets. */
  function DefaultRules(): (r: Rules)
    ensures forall eng, line :: !IsMatch(r.crit, eng, line) && !IsMatch(r.warn, eng, line)
  {
    Rules(DefaultRuleSet(), DefaultRuleSet())
  }

  /**
   * `Rules::new`: the critical set from the critical lists, then the warning
   * set from the warning lists; an error in the critical set is reported
   * before any error in the warning set.
   */
  function NewRules(source: RulesFile, eng: Engine): (r: Result<Rules, string>)
    ensures
      var c := NewRuleSet(source.criticalpatterns, source.criticalexceptions, "critical", eng);
      var w := NewRuleSet(source.warningpatterns, source.warningexceptions, "warning", eng);
      && (r.Success? <==> c.Success? && w.Success?)
      && (c.Failure? ==> r == Failure(c.error))
      && (c.Success? && w.Failure? ==> r == Failure(w.error))
    ensures r.Success? ==>
              && r.value.crit == RuleSet(source.criticalpatterns, source.criticalexceptions)
              && r.value.warn == RuleSet(source.warningpatterns, source.warningexceptions)
  {
    var crit :- NewRuleSet(source.criticalpatterns, source.criticalexceptions, "critical", eng);
    var warn :- NewRuleSet(source.warningpatterns, source.warningexceptions, "warning", eng);
    Success(Rules(crit, warn))
  }

  /** Where `Rules::load` fetches the rules document from. */
  datatype Origin = Remote | LocalFile

  /** A source naming a URL scheme (`://`) is fetched over HTTP; anything else is a file path. */
  function OriginOf(source: string): (o: Origin)
    ensures o == Remote <==> exists i: nat :: OccursAt(source, "://", i)
  {
    if Contains(source, "://") then Remote else LocalFile
  }

  /**
   * `Rules::load`, with HTTP retrieval (`fetch`) and file reading plus YAML
   * parsing (`read`) as oracles: exactly one of them is consulted, chosen by
   * `OriginOf`, and its document is handed to `NewRules`.
   */
  function Load(
    source: string,
    fetch: string -> Result<RulesFile, string>,
    read: string -> Result<RulesFile, string>,
    eng: Engine): (r: Result<Rules, string>)
    ensures
      var doc := if OriginOf(source) == Remote then fetch(source) else read(source);
      && (doc.Failure? ==> r == Failure(doc.error))
      && (doc.Success? ==> r == NewRules(doc.value, eng))
  {
    var file :- if Contains(source, "://") then fetch(source) else read(source);
    NewRules(file, eng)
  }

  /** The URL used by the rules tests is fetched remotely. */
  lemma RemoteOriginExample()
    ensures OriginOf("http://no.such.host.example.com/rules") == Remote
  {
    var url := "http://no.such.host.example.com/rules";
    assert url[4] == ':' && url[5] == '/' && url[6] == '/';
    assert |url[4..7]| == 3;
    assert url[4..7] == "://";
    assert OccursAt(url, "://", 4);
  }

  /**
   * Test `load_from_nonexistent_url_should_fail`: when retrieval of the
   * rules URL fails, loading fails with that error, whatever the file system holds.
   */
  lemma UnreachableUrlFails(
    fetch: string -> Result<RulesFile, string>,
    read: string -> Result<RulesFile, string>,
    eng: Engine)
    requires fetch("http://no.such.host.example.com/rules").Failure?
    ensures Load("http://no.such.host.example.com/rules", fetch, read, eng)
              == Failure(fetch("http://no.such.host.example.com/rules").error)
  {
    RemoteOriginExample();
  }

  /** A plain path is read as a local file. */
  lemma LocalOriginExample()
    ensures OriginOf("fixtures/rules.yaml") == LocalFile
  {
    var path := "fixtures/rules.yaml";
    assert forall i :: 0 <= i < |path| ==> path[i] != ':';
    NotContainedWithoutFirst(path, "://");
  }

  /**
   * Test `parse_failure_should_be_reported`: an invalid pattern fails the
   * whole set. Only `invalid (re` is assumed not to compile; whether the
   * other two compile does not matter.
   */
  lemma ParseFailureReported(eng: Engine)
    requires !eng.compiles("invalid (re")
    ensures NewRuleSet(["foo", "invalid (re", "bar"], [], "crit", eng)
              == Failure("Failed to load crit patterns")
  {
    var ps := ["foo", "invalid (re", "bar"];
    assert ps[1] == "invalid (re" && !eng.compiles(ps[1]);
    assert "Failed to load " + "crit" + " patterns" == "Failed to load crit patterns";
  }
}
