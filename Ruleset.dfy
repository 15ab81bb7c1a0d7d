/**
 * The access-decision engine of Mercurial-Manager (`MercurialManager::Ruleset`).
 *
 * A ruleset is an ordered list of rules, one per policy line,
 *
 *     level [user=pattern] [repo=pattern] [file=pattern] [branch=pattern]
 *
 * and `allow(level, criteria)` answers whether the request may act at `level`: the
 * first rule whose patterns all glob-match the request decides, a `deny` rule refuses,
 * any other rule allows the levels that are no stronger than its own.
 *
 * A Ruleset object is modelled by its sequence of rules; it is never changed after it
 * is built. A request is a map from keyword names to values. The properties of these
 * definitions are proved in module RulesetFacts.
 */
module Ruleset {
  import opened Wrappers
  import Glob

  // ---------------------------------------------------------------------------
  // Privilege levels
  // ---------------------------------------------------------------------------

  datatype Level = Init | Publish | Write | Read | Deny

  /** `LEVELS`, strongest privilege first. */
  const Levels: seq<Level> := [Init, Publish, Write, Read, Deny]

  /** A level's position in `LEVELS` (`LEVELS.index`); a lower rank is a stronger privilege. */
  function Rank(l: Level): (r: nat)
    ensures r < |Levels| && Levels[r] == l
  {
    match l
    case Init => 0
    case Publish => 1
    case Write => 2
    case Read => 3
    case Deny => 4
  }

  /** The level a token names, if it names one. */
  function ParseLevel(token: string): (r: Option<Level>)
    ensures r.Some? ==> LevelName(r.value) == token
    ensures r.None? ==> forall l :: LevelName(l) != token
  {
    if token == "init" then Some(Init)
    else if token == "publish" then Some(Publish)
    else if token == "write" then Some(Write)
    else if token == "read" then Some(Read)
    else if token == "deny" then Some(Deny)
    else None
  }

  /** The symbol a level is written as, in rule text and in `allow` calls. */
  function LevelName(l: Level): (r: string)
    ensures r != [] && r[0] != '#'
    ensures forall i :: 0 <= i < |r| ==> 'a' <= r[i] <= 'z'
  {
    match l
    case Init => "init"
    case Publish => "publish"
    case Write => "write"
    case Read => "read"
    case Deny => "deny"
  }

  // ---------------------------------------------------------------------------
  // Rules
  // ---------------------------------------------------------------------------

  /** `CRITERIA_FIELDS`. */
  datatype Field = User | Repo | File | Branch

  const CriteriaFields: seq<Field> := [User, Repo, File, Branch]

  function FieldIndex(f: Field): (r: nat)
    ensures r < |CriteriaFields| && CriteriaFields[r] == f
  {
    match f
    case User => 0
    case Repo => 1
    case File => 2
    case Branch => 3
  }

  /** The keyword a field is written as, in rule text and in a request. */
  function FieldName(f: Field): (r: string)
    ensures r != [] && r != "level"
    ensures forall i :: 0 <= i < |r| ==> 'a' <= r[i] <= 'z'
  {
    match f
    case User => "user"
    case Repo => "repo"
    case File => "file"
    case Branch => "branch"
  }

  function ParseField(key: string): (r: Option<Field>)
    ensures r.Some? ==> FieldName(r.value) == key
    ensures r.None? ==> forall f :: FieldName(f) != key
  {
    if key == "user" then Some(User)
    else if key == "repo" then Some(Repo)
    else if key == "file" then Some(File)
    else if key == "branch" then Some(Branch)
    else None
  }

  /** The glob patterns of a rule; a field left as None is not checked. */
  datatype Patterns = Patterns(user: Option<string>, repo: Option<string>,
                               file: Option<string>, branch: Option<string>)
  {
    function Get(f: Field): Option<string> {
      match f
      case User => user
      case Repo => repo
      case File => file
      case Branch => branch
    }

    function With(f: Field, pattern: string): (r: Patterns)
      ensures r.Get(f) == Some(pattern)
      ensures forall g :: g != f ==> r.Get(g) == Get(g)
    {
      match f
      case User => this.(user := Some(pattern))
      case Repo => this.(repo := Some(pattern))
      case File => this.(file := Some(pattern))
      case Branch => this.(branch := Some(pattern))
    }

    /** `[(f, pattern)]` when field `f` is set, else nothing. */
    function Criterion(f: Field): seq<(Field, string)> {
      match Get(f)
      case None => []
      case Some(p) => [(f, p)]
    }

    /**
     * `each_criteria`: the set fields with their patterns, in `CRITERIA_FIELDS` order
     * (RulesetFacts.EachCriteriaExactly).
     */
    function EachCriteria(): seq<(Field, string)> {
      Criterion(User) + Criterion(Repo) + Criterion(File) + Criterion(Branch)
    }

    /**
     * The body of `match?`: every set field is supplied by the request and its value
     * glob-matches the pattern (RulesetFacts.MatchesExactly).
     */
    predicate MatchedBy(request: Request) {
      All(EachCriteria(), (c: (Field, string)) => Satisfies(request, c.0, c.1))
    }
  }

  const NoPatterns: Patterns := Patterns(None, None, None, None)

  /** A request: keyword names (`user`, `repo`, `to`, `on`, ...) mapped to values. */
  type Request = map<string, string>

  /** `all?` with a block: whether `holds` holds for every element of `xs`, scanned in order. */
  predicate All<T>(xs: seq<T>, holds: T -> bool): (r: bool)
    ensures r <==> forall i :: 0 <= i < |xs| ==> holds(xs[i])
  {
    if xs == [] then true
    else
      assert forall i :: 0 < i < |xs| ==> xs[i] == xs[1..][i - 1];
      holds(xs[0]) && All(xs[1..], holds)
  }

  /**
   * The block of `all?` in `match?`: the request supplies a value for `field` and that
   * value glob-matches `pattern`. A missing value stops the scan with false.
   */
  predicate Satisfies(request: Request, field: Field, pattern: string) {
    FieldName(field) in request && Glob.FnMatch(pattern, request[FieldName(field)])
  }

  /** Whether field `f`, with the rule's `pattern` for it, lets `request` through. */
  predicate Admits(f: Field, pattern: Option<string>, request: Request) {
    pattern.Some? ==> Satisfies(request, f, pattern.value)
  }

  /** One policy line: the level it grants and the patterns a request must match. */
  datatype Rule = Rule(level: Level, patterns: Patterns)
  {
    /** `match?`. */
    predicate Matches(request: Request) {
      patterns.MatchedBy(request)
    }

    /** `deny?`. */
    predicate IsDeny() {
      level == Deny
    }

    /** `level_index`. */
    function LevelIndex(): (r: nat)
      ensures r < |Levels| && Levels[r] == level
    {
      Rank(level)
    }
  }

  // ---------------------------------------------------------------------------
  // Building a ruleset from text
  // ---------------------------------------------------------------------------

  datatype ParseError =
    | UnknownLevel(token: string)    // the first token of a rule line is not a level
    | MissingEquals(token: string)   // a criteria token has no `=`
    | UnknownField(key: string)      // a criteria key is neither a criteria field nor `level`

  /** The characters Ruby's `strip` and `split` treat as whitespace. */
  predicate IsSpace(c: char) {
    c == ' ' || c == '\t' || c == '\n' || c == '\U{B}' || c == '\U{C}' || c == '\r'
  }

  /** The characters `strip` removes from both ends: whitespace and `NUL`. */
  predicate IsStripped(c: char) {
    IsSpace(c) || c == '\0'
  }

  /** `s` holds no whitespace. */
  predicate NoSpace(s: string) {
    forall i :: 0 <= i < |s| ==> !IsSpace(s[i])
  }

  function TrimStart(s: string): (r: string)
    ensures |r| <= |s| && r == s[|s| - |r|..]
    ensures forall i :: 0 <= i < |s| - |r| ==> IsStripped(s[i])
    ensures r == [] || !IsStripped(r[0])
  {
    if s != [] && IsStripped(s[0]) then TrimStart(s[1..]) else s
  }

  function TrimEnd(s: string): (r: string)
    ensures |r| <= |s| && r == s[..|r|]
    ensures forall i :: |r| <= i < |s| ==> IsStripped(s[i])
    ensures r == [] || !IsStripped(r[|r| - 1])
  {
    if s != [] && IsStripped(s[|s| - 1]) then TrimEnd(s[..|s| - 1]) else s
  }

  /** `line.strip`: the line without its leading and trailing whitespace and `NUL`s. */
  function Strip(s: string): (r: string)
    ensures r == [] || (!IsStripped(r[0]) && !IsStripped(r[|r| - 1]))
  {
    TrimEnd(TrimStart(s))
  }

  /** A token of `split`: non-empty, without whitespace. */
  predicate IsWord(w: string) {
    w != [] && NoSpace(w)
  }

  /** The length of the run of non-whitespace characters that starts `s`. */
  function WordLength(s: string): (n: nat)
    ensures n <= |s|
    ensures forall i :: 0 <= i < n ==> !IsSpace(s[i])
    ensures n == |s| || IsSpace(s[n])
  {
    if s == [] || IsSpace(s[0]) then 0 else 1 + WordLength(s[1..])
  }

  /** `split` with no argument: the maximal runs of non-whitespace, in order. */
  function Words(s: string): (r: seq<string>)
    ensures forall i :: 0 <= i < |r| ==> IsWord(r[i])
    ensures s != [] && !IsSpace(s[0]) ==> r != []
    decreases |s|
  {
    if s == [] then []
    else if IsSpace(s[0]) then Words(s[1..])
    else
      var n := WordLength(s);
      [s[..n]] + Words(s[n..])
  }

  /** The words separated by single spaces; `split`'s inverse (RulesetFacts.WordsOfJoin). */
  function Join(ws: seq<string>): string {
    if ws == [] then []
    else if |ws| == 1 then ws[0]
    else ws[0] + " " + Join(ws[1..])
  }

  /** `str.split('=', 2)`: the text before the first `=` and the text after it. */
  function SplitAtEquals(token: string): (r: Option<(string, string)>)
    ensures r.None? <==> '=' !in token
    ensures r.Some? ==> token == r.value.0 + "=" + r.value.1 && '=' !in r.value.0
  {
    match Glob.IndexOf(token, '=')
    case None => None
    case Some(i) =>
      assert token == token[..i] + "=" + token[i + 1..];
      Some((token[..i], token[i + 1..]))
  }

  /**
   * The patterns given by the tokens after the level, added to `acc`: each token is
   * `key=pattern`, split at its first `=`. A later token for the same field wins, as
   * in `Hash[...]`. The key `level` is accepted and has no effect, because the line's
   * first token is stored under `:level` after the hash is built.
   */
  function ParseCriteria(tokens: seq<string>, acc: Patterns): Result<Patterns, ParseError>
    decreases |tokens|
  {
    if tokens == [] then Ok(acc)
    else
      match SplitAtEquals(tokens[0])
      case None => Err(MissingEquals(tokens[0]))
      case Some(kv) =>
        if kv.0 == "level" then ParseCriteria(tokens[1..], acc)
        else
          match ParseField(kv.0)
          case None => Err(UnknownField(kv.0))
          case Some(f) => ParseCriteria(tokens[1..], acc.With(f, kv.1))
  }

  /** A line that yields no rule: blank, or a comment, once stripped. */
  predicate IsIgnored(line: string) {
    var stripped := Strip(line);
    stripped == [] || stripped[0] == '#'
  }

  /** The whitespace-separated tokens of a line. */
  function Tokens(line: string): seq<string> {
    Words(Strip(line))
  }

  /**
   * One line of rule text: no rule for a blank or comment line, else the rule whose
   * level is the first token and whose patterns are the later tokens, or an error
   * (RulesetFacts.ParseLineCases).
   */
  function ParseLine(line: string): (r: Result<Option<Rule>, ParseError>)
    ensures r == Ok(None) <==> IsIgnored(line)
  {
    if IsIgnored(line) then Ok(None)
    else
      var tokens := Tokens(line);
      match ParseLevel(tokens[0])
      case None => Err(UnknownLevel(tokens[0]))
      case Some(level) =>
        match ParseCriteria(tokens[1..], NoPatterns)
        case Err(e) => Err(e)
        case Ok(patterns) => Ok(Some(Rule(level, patterns)))
  }

  /** The lines that yield a rule, in order. */
  function RuleLines(lines: seq<string>): (r: seq<string>)
    ensures forall i :: 0 <= i < |r| ==> r[i] in lines && !IsIgnored(r[i])
  {
    if lines == [] then []
    else if IsIgnored(lines[0]) then RuleLines(lines[1..])
    else [lines[0]] + RuleLines(lines[1..])
  }

  /**
   * Ruby's `map` over the lines followed by `flatten` of the skipped lines: `step`
   * applied to each element in order, keeping the values it yields, or the first
   * error it reports.
   */
  function Gather<X, T, E>(xs: seq<X>, step: X -> Result<Option<T>, E>): Result<seq<T>, E>
  {
    if xs == [] then Ok([])
    else
      match step(xs[0])
      case Err(e) => Err(e)
      case Ok(None) => Gather(xs[1..], step)
      case Ok(Some(x)) =>
        match Gather(xs[1..], step)
        case Err(e) => Err(e)
        case Ok(rest) => Ok([x] + rest)
  }

  /**
   * `Ruleset.build(lines)`: one rule per line that is neither blank nor a comment, in
   * line order, or the error of the first line that does not parse
   * (RulesetFacts.BuildRules, RulesetFacts.BuildFirstError).
   */
  function Build(lines: seq<string>): Result<seq<Rule>, ParseError>
  {
    Gather(lines, ParseLine)
  }

  /** `Ruleset.new(*rules)`: the rules of all arguments, flattened, in argument order. */
  function New(parts: seq<seq<Rule>>): (r: seq<Rule>)
    ensures forall k, x :: 0 <= k < |parts| && x in parts[k] ==> x in r
    ensures forall x :: x in r ==> exists k :: 0 <= k < |parts| && x in parts[k]
  {
    if parts == [] then [] else parts[0] + New(parts[1..])
  }

  // ---------------------------------------------------------------------------
  // The decision
  // ---------------------------------------------------------------------------

  /** The keywords `allow` treats specially: `user`, `repo` and their aliases. */
  const AliasKeys: set<string> := {"to", "on", "user", "repo"}

  /**
   * The request with `to` renamed to `user` and `on` renamed to `repo`; when both a
   * keyword and its alias are given, the alias wins.
   */
  function ResolveAliases(request: Request): (r: Request)
    ensures "to" !in r && "on" !in r
    ensures "user" in r <==> "to" in request || "user" in request
    ensures "repo" in r <==> "on" in request || "repo" in request
    ensures "to" in request ==> r["user"] == request["to"]
    ensures "to" !in request && "user" in request ==> r["user"] == request["user"]
    ensures "on" in request ==> r["repo"] == request["on"]
    ensures "on" !in request && "repo" in request ==> r["repo"] == request["repo"]
    ensures forall k :: k !in AliasKeys ==> (k in r <==> k in request)
    ensures forall k :: k !in AliasKeys && k in r ==> r[k] == request[k]
  {
    var renamed := if "to" in request then (request - {"to"})["user" := request["to"]] else request;
    if "on" in renamed then (renamed - {"on"})["repo" := renamed["on"]] else renamed
  }

  /** Rule `i` is the first of `rules` that matches `request`. */
  predicate IsFirstMatch(rules: seq<Rule>, request: Request, i: int) {
    0 <= i < |rules| && rules[i].Matches(request) &&
    forall j :: 0 <= j < i ==> !rules[j].Matches(request)
  }

  /** `find` as a position: the first element of `xs` that `accepts` holds for. */
  function Find<T>(xs: seq<T>, accepts: T -> bool): (r: Option<nat>)
  {
    if xs == [] then None
    else if accepts(xs[0]) then Some(0)
    else
      match Find(xs[1..], accepts)
      case None => None
      case Some(i) => Some(i + 1)
  }

  /** `find` returns the first accepted element, and nothing when none is accepted. */
  lemma {:induction false} FindIsFirst<T>(xs: seq<T>, accepts: T -> bool)
    ensures Find(xs, accepts).Some? ==>
      Find(xs, accepts).value < |xs| && accepts(xs[Find(xs, accepts).value])
    ensures Find(xs, accepts).Some? ==> forall j :: 0 <= j < Find(xs, accepts).value ==> !accepts(xs[j])
    ensures Find(xs, accepts).None? ==> forall j :: 0 <= j < |xs| ==> !accepts(xs[j])
    decreases |xs|
  {
    if xs != [] && !accepts(xs[0]) {
      FindIsFirst(xs[1..], accepts);
      assert forall j :: 0 < j < |xs| ==> xs[j] == xs[1..][j - 1];
    }
  }

  /** The block `{|rule| rule.match?(**criteria) }`. */
  function MatchesOf(request: Request): Rule -> bool {
    (rule: Rule) => rule.Matches(request)
  }

  /** The position of the rule `rules.find {|rule| rule.match?(**criteria) }` returns. */
  function FirstMatch(rules: seq<Rule>, request: Request): (r: Option<nat>)
    ensures r.Some? ==> IsFirstMatch(rules, request, r.value)
    ensures r.None? ==> forall j :: 0 <= j < |rules| ==> !rules[j].Matches(request)
  {
    FindIsFirst(rules, MatchesOf(request));
    Find(rules, MatchesOf(request))
  }

  /** Whether the first matching rule, `rule`, lets a request act at `requested`. */
  predicate Grants(rule: Rule, requested: Level) {
    !rule.IsDeny() && Rank(requested) >= rule.LevelIndex()
  }

  /** At most one rule is the first match. */
  lemma FirstMatchIsUnique(rules: seq<Rule>, request: Request, i: int)
    requires IsFirstMatch(rules, request, i)
    ensures forall j :: IsFirstMatch(rules, request, j) ==> j == i
  {
    forall j | IsFirstMatch(rules, request, j)
      ensures j == i
    {
      assert !(j < i) && !(i < j);
    }
  }

  /**
   * `allow(level, **criteria)`: false for a level outside `LEVELS`; otherwise the
   * verdict of the first rule that matches the request once its aliases are resolved,
   * and false when no rule matches.
   */
  function Allow(rules: seq<Rule>, level: string, request: Request): (r: bool)
    ensures ParseLevel(level).None? ==> !r
    ensures r <==> (ParseLevel(level).Some? &&
                    exists i :: IsFirstMatch(rules, ResolveAliases(request), i) &&
                                Grants(rules[i], ParseLevel(level).value))
  {
    match ParseLevel(level)
    case None => false
    case Some(requested) =>
      var criteria := ResolveAliases(request);
      match FirstMatch(rules, criteria)
      case None => false
      case Some(i) =>
        FirstMatchIsUnique(rules, criteria, i);
        Grants(rules[i], requested)
  }
}
