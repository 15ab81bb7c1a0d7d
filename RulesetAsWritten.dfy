/**
 * `Ruleset.build` and `Ruleset#allow` as the code is written, next to the corrected
 * definitions in module Ruleset.
 *
 * As written, `build` maps every line to an entry: a comment line to `nil` (the `next`
 * inside `map`), a blank line to a rule whose level is `nil`, and any other line to a
 * rule whose level is its first token, unchecked. `allow` then raises when its scan
 * reaches a `nil` entry (`nil.match?`), and when the first matching rule has a `nil`
 * level (`nil.to_sym`) or a level outside `LEVELS` (`Integer >= nil`).
 */
module RulesetAsWritten {
  import opened Wrappers
  import opened Ruleset
  import RulesetFacts

  /** A rule as `build` stores it: the level token as given; None for a blank line. */
  datatype RawRule = RawRule(level: Option<string>, patterns: Patterns)

  /** An element of the rules array: None is the `nil` a comment line leaves. */
  type Entry = Option<RawRule>

  /** The result of a call that may raise. */
  datatype Outcome = Returned(value: bool) | Raised

  /** `acc` with field `f` unset, as a `nil` value for its key leaves it. */
  function Unset(acc: Patterns, f: Field): (r: Patterns)
    ensures r.Get(f) == None
    ensures forall g :: g != f ==> r.Get(g) == acc.Get(g)
  {
    match f
    case User => acc.(user := None)
    case Repo => acc.(repo := None)
    case File => acc.(file := None)
    case Branch => acc.(branch := None)
  }

  /** The key `Hash[...]` stores a token under: the text before its first `=`, or all of it. */
  function KeyAsWritten(token: string): string {
    match SplitAtEquals(token)
    case None => token
    case Some(kv) => kv.0
  }

  /** A key `Rule.new` accepts: a criteria field or `level`. */
  predicate IsKnownKey(token: string) {
    KeyAsWritten(token) == "level" || ParseField(KeyAsWritten(token)).Some?
  }

  /**
   * The criteria tokens as `Hash[criteria.map {|str| str.split('=', 2)}]` and
   * `Rule.new` read them, added to `acc`. A token without `=` becomes a one-element
   * pair, which `Hash[]` stores as `key => nil`: a field named alone is left unset,
   * undoing any earlier token for it. Only an unknown key raises.
   */
  function ParseCriteriaAsWritten(tokens: seq<string>, acc: Patterns): (r: Result<Patterns, ParseError>)
    ensures r.Ok? <==> forall i :: 0 <= i < |tokens| ==> IsKnownKey(tokens[i])
    ensures r.Err? ==> r.error.UnknownField?
    decreases |tokens|
  {
    if tokens == [] then Ok(acc)
    else
      assert forall i :: 0 < i < |tokens| ==> tokens[i] == tokens[1..][i - 1];
      match SplitAtEquals(tokens[0])
      case None =>
        if tokens[0] == "level" then ParseCriteriaAsWritten(tokens[1..], acc)
        else
          (match ParseField(tokens[0])
           case None => Err(UnknownField(tokens[0]))
           case Some(f) => ParseCriteriaAsWritten(tokens[1..], Unset(acc, f)))
      case Some(kv) =>
        if kv.0 == "level" then ParseCriteriaAsWritten(tokens[1..], acc)
        else
          match ParseField(kv.0)
          case None => Err(UnknownField(kv.0))
          case Some(f) => ParseCriteriaAsWritten(tokens[1..], acc.With(f, kv.1))
  }

  /** One line as the `map` block of `build` treats it. */
  function ParseLineAsWritten(line: string): (r: Result<Entry, ParseError>)
    ensures r == Ok(None) <==> (Strip(line) != [] && Strip(line)[0] == '#')
  {
    var stripped := Strip(line);
    if stripped != [] && stripped[0] == '#' then Ok(None)
    else
      var tokens := Words(stripped);
      if tokens == [] then Ok(Some(RawRule(None, NoPatterns)))
      else
        match ParseCriteriaAsWritten(tokens[1..], NoPatterns)
        case Err(e) => Err(e)
        case Ok(patterns) => Ok(Some(RawRule(Some(tokens[0]), patterns)))
  }

  /** `Ruleset.build(lines).rules` as written: one entry per line, in line order. */
  function BuildAsWritten(lines: seq<string>): (r: Result<seq<Entry>, ParseError>)
    ensures r.Ok? ==> |r.value| == |lines|
  {
    if lines == [] then Ok([])
    else
      match ParseLineAsWritten(lines[0])
      case Err(e) => Err(e)
      case Ok(entry) =>
        match BuildAsWritten(lines[1..])
        case Err(e) => Err(e)
        case Ok(rest) => Ok([entry] + rest)
  }

  /** What `rules.find {|rule| rule.match?(**criteria) }` does over the entries. */
  datatype ScanOutcome = ScanRaised | NoMatch | Found(rule: RawRule)

  function ScanAsWritten(entries: seq<Entry>, request: Request): (r: ScanOutcome)
    ensures r.Found? ==> exists i :: 0 <= i < |entries| && entries[i] == Some(r.rule)
  {
    if entries == [] then NoMatch
    else
      match entries[0]
      case None => ScanRaised
      case Some(rule) =>
        if rule.patterns.MatchedBy(request) then Found(rule)
        else
          var rest := ScanAsWritten(entries[1..], request);
          assert rest.Found? ==> exists i :: 0 <= i < |entries| && entries[i] == Some(rest.rule) by {
            if rest.Found? {
              var i :| 0 <= i < |entries[1..]| && entries[1..][i] == Some(rest.rule);
              assert entries[i + 1] == entries[1..][i];
            }
          }
          rest
  }

  /**
   * The verdict of `allow` once `rule` is the first match, as written: `deny?` compares
   * the level token with `'deny'`; `level_index` raises on a `nil` level, and the
   * comparison raises on a level outside `LEVELS`.
   */
  function VerdictAsWritten(rule: RawRule, requested: Level): Outcome {
    if rule.level == Some("deny") then Returned(false)
    else
      match rule.level
      case None => Raised
      case Some(name) =>
        match ParseLevel(name)
        case None => Raised
        case Some(granted) => Returned(Rank(requested) >= Rank(granted))
  }

  /** `allow(level, **criteria)` over the entries `build` produced, as written. */
  function AllowAsWritten(entries: seq<Entry>, level: string, request: Request): (r: Outcome)
    ensures ParseLevel(level).None? ==> r == Returned(false)
  {
    match ParseLevel(level)
    case None => Returned(false)
    case Some(requested) =>
      match ScanAsWritten(entries, ResolveAliases(request))
      case ScanRaised => Raised
      case NoMatch => Returned(false)
      case Found(rule) => VerdictAsWritten(rule, requested)
  }

  // ---------------------------------------------------------------------------
  // Inputs on which the code as written goes wrong
  // ---------------------------------------------------------------------------

  /** Every entry before position `i` is a rule, and none of them matches `request`. */
  predicate PassedBy(entries: seq<Entry>, request: Request, i: int) {
    0 <= i <= |entries| &&
    forall j :: 0 <= j < i ==> entries[j].Some? && !entries[j].value.patterns.MatchedBy(request)
  }

  /** `find` stops at entry `i`: calling `match?` there raises or returns true. */
  predicate StopsAt(entries: seq<Entry>, request: Request, i: int) {
    PassedBy(entries, request, i) && i < |entries| &&
    (entries[i].None? || entries[i].value.patterns.MatchedBy(request))
  }

  /** Past the first entry, when it is a rule that does not match. */
  lemma PassedByTail(entries: seq<Entry>, request: Request, i: nat)
    requires entries != [] && entries[0].Some? && !entries[0].value.patterns.MatchedBy(request)
    ensures PassedBy(entries, request, i + 1) <==> PassedBy(entries[1..], request, i)
  {
    if PassedBy(entries[1..], request, i) {
      forall j | 0 <= j < i + 1
        ensures entries[j].Some? && !entries[j].value.patterns.MatchedBy(request)
      {
        if j > 0 { assert entries[j] == entries[1..][j - 1]; }
      }
    }
    if PassedBy(entries, request, i + 1) {
      forall j | 0 <= j < i
        ensures entries[1..][j].Some? && !entries[1..][j].value.patterns.MatchedBy(request)
      {
        assert entries[1..][j] == entries[j + 1];
      }
    }
  }

  /** `find` stops at most once: at the first entry that raises or matches. */
  lemma StopsAtUnique(entries: seq<Entry>, request: Request, i: int, k: int)
    requires StopsAt(entries, request, i) && StopsAt(entries, request, k)
    ensures i == k
  {
  }

  /**
   * The scan as written walks the entries in order: it raises at a `nil` entry before
   * any match, finds the first rule that matches, and finds nothing when it passes
   * every entry.
   */
  lemma {:induction false} ScanAsWrittenIsFirst(entries: seq<Entry>, request: Request)
    ensures ScanAsWritten(entries, request) == NoMatch <==> PassedBy(entries, request, |entries|)
    ensures ScanAsWritten(entries, request) == ScanRaised <==>
      exists i :: StopsAt(entries, request, i) && entries[i].None?
    ensures ScanAsWritten(entries, request).Found? <==>
      exists i :: StopsAt(entries, request, i) && entries[i].Some?
    ensures ScanAsWritten(entries, request).Found? ==>
      exists i :: StopsAt(entries, request, i) && entries[i] == Some(ScanAsWritten(entries, request).rule)
    decreases |entries|
  {
    if entries == [] {
      assert PassedBy(entries, request, 0);
    } else if entries[0].None? {
      assert StopsAt(entries, request, 0);
      assert !PassedBy(entries, request, |entries|);
      forall i | StopsAt(entries, request, i) ensures i == 0 {
        StopsAtUnique(entries, request, i, 0);
      }
    } else if entries[0].value.patterns.MatchedBy(request) {
      assert StopsAt(entries, request, 0);
      assert !PassedBy(entries, request, |entries|);
      forall i | StopsAt(entries, request, i) ensures i == 0 {
        StopsAtUnique(entries, request, i, 0);
      }
    } else {
      var tail := entries[1..];
      ScanAsWrittenIsFirst(tail, request);
      PassedByTail(entries, request, |tail|);
      forall i | StopsAt(entries, request, i)
        ensures i > 0 && StopsAt(tail, request, i - 1) && entries[i] == tail[i - 1]
      {
        assert !StopsAt(entries, request, 0);
        PassedByTail(entries, request, i - 1);
      }
      forall i | StopsAt(tail, request, i)
        ensures StopsAt(entries, request, i + 1) && entries[i + 1] == tail[i]
      {
        PassedByTail(entries, request, i);
      }
    }
  }

  /**
   * `allow` as written for a level in `LEVELS`: it raises when `find` stops at a `nil`
   * entry, or at a matching rule whose verdict raises; otherwise it returns the verdict
   * of the first matching rule, and false when no rule matches.
   */
  lemma AllowAsWrittenOf(entries: seq<Entry>, level: Level, request: Request)
    ensures AllowAsWritten(entries, LevelName(level), request) == Raised <==>
      exists i :: StopsAt(entries, ResolveAliases(request), i) &&
        (entries[i].None? || VerdictAsWritten(entries[i].value, level) == Raised)
    ensures AllowAsWritten(entries, LevelName(level), request) == Returned(true) <==>
      exists i :: StopsAt(entries, ResolveAliases(request), i) &&
        entries[i].Some? && VerdictAsWritten(entries[i].value, level) == Returned(true)
    ensures AllowAsWritten(entries, LevelName(level), request) == Returned(false) <==>
      PassedBy(entries, ResolveAliases(request), |entries|) ||
      exists i :: StopsAt(entries, ResolveAliases(request), i) &&
        entries[i].Some? && VerdictAsWritten(entries[i].value, level) == Returned(false)
  {
    var criteria := ResolveAliases(request);
    RulesetFacts.ParseLevelName(level);
    ScanAsWrittenIsFirst(entries, criteria);
    forall i, k | StopsAt(entries, criteria, i) && StopsAt(entries, criteria, k) ensures i == k {
      StopsAtUnique(entries, criteria, i, k);
    }
  }

  /** The scan as written stops at a rule without patterns, which matches everything. */
  lemma ScanStopsAtUnconstrained(rule: RawRule, rest: seq<Entry>, request: Request)
    requires rule.patterns == NoPatterns
    ensures ScanAsWritten([Some(rule)] + rest, request) == Found(rule)
  {
    RulesetFacts.UnconstrainedRuleMatchesAll(Read, request);
  }

  /** A line holding one word, with no whitespace around it, has that word as its tokens. */
  lemma OneWordLine(w: string)
    requires IsWord(w) && w[0] != '\0' && w[|w| - 1] != '\0'
    ensures Strip(w) == w && Tokens(w) == [w]
  {
    assert TrimStart(w) == w;
    assert TrimEnd(w) == w;
    RulesetFacts.WordsOfJoin([w]);
  }

  /**
   * A comment line at the top of the rule text: the corrected `build` reads the rest
   * of the text alone, while `build` as written leaves a `nil` entry first.
   */
  lemma CommentLineKept(comment: string, lines: seq<string>)
    requires Strip(comment) != [] && Strip(comment)[0] == '#'
    requires BuildAsWritten(lines).Ok?
    ensures Build([comment] + lines) == Build(lines)
    ensures BuildAsWritten([comment] + lines) == Ok([None] + BuildAsWritten(lines).value)
  {
    assert ([comment] + lines)[0] == comment && ([comment] + lines)[1..] == lines;
  }

  /** Rules behind a comment's `nil` entry: `allow` as written raises on every request. */
  lemma CommentLineRaises(rest: seq<Entry>, level: Level, request: Request)
    ensures AllowAsWritten([None] + rest, LevelName(level), request) == Raised
  {
    RulesetFacts.ParseLevelName(level);
  }

  /**
   * A blank line at the top of the rule text: the corrected `build` reads the rest of
   * the text alone, while `build` as written puts first a rule with a `nil` level and
   * no patterns.
   */
  lemma BlankLineKept(blank: string, lines: seq<string>)
    requires Strip(blank) == []
    requires BuildAsWritten(lines).Ok?
    ensures Build([blank] + lines) == Build(lines)
    ensures BuildAsWritten([blank] + lines) == Ok([Some(RawRule(None, NoPatterns))] + BuildAsWritten(lines).value)
  {
    assert ([blank] + lines)[0] == blank && ([blank] + lines)[1..] == lines;
    assert Words([]) == [];
  }

  /**
   * Rules behind the rule a blank line leaves: that rule matches every request, and
   * `allow` as written raises on its `nil` level.
   */
  lemma BlankLineRaises(rest: seq<Entry>, level: Level, request: Request)
    ensures AllowAsWritten([Some(RawRule(None, NoPatterns))] + rest, LevelName(level), request) == Raised
  {
    RulesetFacts.ParseLevelName(level);
    ScanStopsAtUnconstrained(RawRule(None, NoPatterns), rest, ResolveAliases(request));
  }

  /** A one-word line whose word names no level. */
  lemma UnknownLevelLine(token: string)
    requires IsWord(token) && token[0] != '#' && ParseLevel(token).None?
    requires token[0] != '\0' && token[|token| - 1] != '\0'
    ensures ParseLine(token) == Err(UnknownLevel(token))
    ensures ParseLineAsWritten(token) == Ok(Some(RawRule(Some(token), NoPatterns)))
  {
    OneWordLine(token);
    assert [token][1..] == [];
  }

  /**
   * Rule text whose first line is a word that names no level: the corrected `build`
   * rejects it, while `build` as written keeps a rule with that level.
   */
  lemma UnknownLevelKept(token: string, lines: seq<string>)
    requires IsWord(token) && token[0] != '#' && ParseLevel(token).None?
    requires token[0] != '\0' && token[|token| - 1] != '\0'
    requires BuildAsWritten(lines).Ok?
    ensures Build([token] + lines) == Err(UnknownLevel(token))
    ensures BuildAsWritten([token] + lines) ==
      Ok([Some(RawRule(Some(token), NoPatterns))] + BuildAsWritten(lines).value)
  {
    assert ([token] + lines)[0] == token && ([token] + lines)[1..] == lines;
    UnknownLevelLine(token);
  }

  /** A first rule whose level is not in `LEVELS`: `allow` as written raises once it matches. */
  lemma UnknownLevelRaises(token: string, rest: seq<Entry>, level: Level, request: Request)
    requires ParseLevel(token).None?
    ensures AllowAsWritten([Some(RawRule(Some(token), NoPatterns))] + rest, LevelName(level), request) == Raised
  {
    RulesetFacts.ParseLevelName(level);
    ScanStopsAtUnconstrained(RawRule(Some(token), NoPatterns), rest, ResolveAliases(request));
    assert token != LevelName(Deny);
  }

  /**
   * A line that names a field without `=`, such as `write user`: `build` as written
   * keeps a rule that leaves the field unchecked (the corrected parser rejects the
   * line, RulesetFacts.BareFieldRejected).
   */
  lemma BareFieldLine(l: Level, f: Field)
    ensures ParseLineAsWritten(Join([LevelName(l), FieldName(f)]) + "\n") ==
      Ok(Some(RawRule(Some(LevelName(l)), NoPatterns)))
  {
    var ws := [LevelName(l), FieldName(f)];
    var line := Join(ws) + "\n";
    RulesetFacts.TokensOfLine(ws);
    RuleLineAsWritten(line);
    assert Tokens(line)[1..] == [FieldName(f)];
    BareField(f, NoPatterns);
    assert Unset(NoPatterns, f) == NoPatterns;
  }

  /** A field named alone, without `=`, unsets that field. */
  lemma BareField(f: Field, acc: Patterns)
    ensures ParseCriteriaAsWritten([FieldName(f)], acc) == Ok(Unset(acc, f))
  {
    assert '=' !in FieldName(f);
    assert SplitAtEquals(FieldName(f)) == None && ParseField(FieldName(f)) == Some(f);
    assert [FieldName(f)][1..] == [];
  }

  /** A rule line as `build` as written reads it: the first token and the criteria after it. */
  lemma RuleLineAsWritten(line: string)
    requires !IsIgnored(line)
    ensures Tokens(line) != []
    ensures ParseLineAsWritten(line) ==
      match ParseCriteriaAsWritten(Tokens(line)[1..], NoPatterns)
      case Err(e) => Err(e)
      case Ok(patterns) => Ok(Some(RawRule(Some(Tokens(line)[0]), patterns)))
  {
  }

  /**
   * The rule such a line leaves matches every request, so its verdict applies to every
   * principal and every repository behind it.
   */
  lemma BareFieldWidens(l: Level, rest: seq<Entry>, level: Level, request: Request)
    ensures AllowAsWritten([Some(RawRule(Some(LevelName(l)), NoPatterns))] + rest, LevelName(level), request) ==
      Returned(Grants(Rule(l, NoPatterns), level))
  {
    RulesetFacts.ParseLevelName(level);
    ScanStopsAtUnconstrained(RawRule(Some(LevelName(l)), NoPatterns), rest, ResolveAliases(request));
    VerdictAgrees(Rule(l, NoPatterns), level);
  }

  // ---------------------------------------------------------------------------
  // Where the code as written and the corrected model agree
  // ---------------------------------------------------------------------------

  /** How `build` as written stores a rule the corrected parser reads. */
  function Written(rule: Rule): RawRule {
    RawRule(Some(LevelName(rule.level)), rule.patterns)
  }

  function WrittenEntries(rules: seq<Rule>): (entries: seq<Entry>)
    ensures |entries| == |rules|
  {
    if rules == [] then [] else [Some(Written(rules[0]))] + WrittenEntries(rules[1..])
  }

  /** On criteria tokens the corrected parser accepts, `Hash[]` and `Rule.new` read the same. */
  lemma {:induction false} ParseCriteriaAgrees(tokens: seq<string>, acc: Patterns)
    requires ParseCriteria(tokens, acc).Ok?
    ensures ParseCriteriaAsWritten(tokens, acc) == ParseCriteria(tokens, acc)
    decreases |tokens|
  {
    if tokens != [] {
      match SplitAtEquals(tokens[0])
      case None =>
      case Some(kv) =>
        if kv.0 == "level" {
          ParseCriteriaAgrees(tokens[1..], acc);
        } else {
          match ParseField(kv.0)
          case None =>
          case Some(f) => ParseCriteriaAgrees(tokens[1..], acc.With(f, kv.1));
        }
    }
  }

  /** On a rule line the corrected parser accepts, the code as written reads the same rule. */
  lemma ParseLineAgrees(line: string)
    requires !IsIgnored(line) && ParseLine(line).Ok?
    ensures ParseLineAsWritten(line) == Ok(Some(Written(ParseLine(line).value.value)))
  {
    RulesetFacts.ParseLineCases(line);
    ParseCriteriaAgrees(Tokens(line)[1..], NoPatterns);
  }

  /** Without blank or comment lines, both `build`s read the same rules. */
  lemma {:induction false} BuildAgrees(lines: seq<string>)
    requires forall i :: 0 <= i < |lines| ==> !IsIgnored(lines[i])
    requires Build(lines).Ok?
    ensures BuildAsWritten(lines) == Ok(WrittenEntries(Build(lines).value))
    decreases |lines|
  {
    if lines != [] {
      RulesetFacts.BuildSucceeds(lines);
      RulesetFacts.BuildSucceeds(lines[1..]);
      assert forall i :: 0 <= i < |lines[1..]| ==> lines[1..][i] == lines[i + 1];
      ParseLineAgrees(lines[0]);
      BuildAgrees(lines[1..]);
    }
  }

  /** The scan as written finds the first matching rule, and never raises, over rules only. */
  lemma {:induction false} ScanAgrees(rules: seq<Rule>, request: Request)
    ensures ScanAsWritten(WrittenEntries(rules), request) ==
      match FirstMatch(rules, request)
      case None => NoMatch
      case Some(i) => Found(Written(rules[i]))
    decreases |rules|
  {
    if rules != [] {
      var entries := WrittenEntries(rules);
      assert entries[0] == Some(Written(rules[0])) && entries[1..] == WrittenEntries(rules[1..]);
      ScanAgrees(rules[1..], request);
      assert FirstMatch(rules, request) ==
        if rules[0].Matches(request) then Some(0)
        else match FirstMatch(rules[1..], request)
          case None => None
          case Some(i) => Some(i + 1);
    }
  }

  /** For a rule the corrected parser reads, the verdict as written is the corrected one. */
  lemma VerdictAgrees(rule: Rule, requested: Level)
    ensures VerdictAsWritten(Written(rule), requested) == Returned(Grants(rule, requested))
  {
    RulesetFacts.ParseLevelName(rule.level);
  }

  /**
   * Over rules the corrected `build` reads (BuildAgrees), `allow` as written returns the
   * corrected verdict, for every level and request.
   */
  lemma AllowAgrees(rules: seq<Rule>, level: string, request: Request)
    ensures AllowAsWritten(WrittenEntries(rules), level, request) == Returned(Allow(rules, level, request))
  {
    ScanAgrees(rules, ResolveAliases(request));
    if ParseLevel(level).Some? && FirstMatch(rules, ResolveAliases(request)).Some? {
      var i := FirstMatch(rules, ResolveAliases(request)).value;
      VerdictAgrees(rules[i], ParseLevel(level).value);
    }
  }
}
