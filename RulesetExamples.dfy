/**
 * The rulesets of the repository's RSpec examples (spec/mercurial_manager/ruleset_spec.rb)
 * and their expectations, each stated for a whole family of principals and
 * repositories rather than for the sample names alone.
 */
module RulesetExamples {
  import opened Wrappers
  import Glob
  import opened Ruleset
  import opened RulesetFacts

  /** `s` starts with `w`. */
  predicate HasPrefix(s: string, w: string) {
    |w| <= |s| && s[..|w|] == w
  }

  // w* and w** match exactly the values that start with w.
  lemma PrefixPattern(w: string, s: string)
    requires Glob.IsLiteralText(w) && w != []
    ensures Glob.FnMatch(w + "*", s) == HasPrefix(s, w)
    ensures Glob.FnMatch(w + "**", s) == HasPrefix(s, w)
  {
    Glob.LiteralThenStar(w, s);
    Glob.LiteralTextIsBraceFree(w);
    Glob.DoubleStarIsStar(w, [], s);
    assert w + "**" + [] == w + "**" && w + "*" + [] == w + "*";
  }

  /** A rule that sets only `user` and `repo`. */
  function UserRepo(level: Level, user: Option<string>, repo: Option<string>): Rule {
    Rule(level, Patterns(user, repo, None, None))
  }

  /** A rule that sets only `user` and `repo` checks only those two fields. */
  lemma UserRepoMatches(level: Level, user: Option<string>, repo: Option<string>, request: Request)
    ensures UserRepo(level, user, repo).Matches(request) <==>
      Admits(User, user, request) && Admits(Repo, repo, request)
  {
    var p := UserRepo(level, user, repo).patterns;
    MatchesExactly(UserRepo(level, user, repo), request);
    assert Admits(User, p.Get(User), request) && Admits(Repo, p.Get(Repo), request) ==>
      forall f :: Admits(f, p.Get(f), request);
  }

  /** The resolved request names a principal that starts with `w`. */
  predicate UserUnder(request: Request, w: string) {
    "user" in request && HasPrefix(request["user"], w)
  }

  /** The resolved request names the repository `name`. */
  predicate RepoIs(request: Request, name: string) {
    "repo" in request && request["repo"] == name
  }

  /** `field=w*` (or `field=w**`) with `w` literal matches the values that start with `w`. */
  lemma UserGlobMatches(level: Level, w: string, star: string, repo: Option<string>, request: Request)
    requires Glob.IsLiteralText(w) && w != [] && (star == "*" || star == "**")
    ensures UserRepo(level, Some(w + star), repo).Matches(request) <==>
      UserUnder(request, w) && Admits(Repo, repo, request)
  {
    UserRepoMatches(level, Some(w + star), repo, request);
    if "user" in request {
      PrefixPattern(w, request["user"]);
    }
  }

  /** `repo=name` with `name` literal matches that one repository. */
  lemma RepoLiteralMatches(name: string, request: Request)
    requires Glob.IsLiteralText(name)
    ensures Admits(Repo, Some(name), request) <==> RepoIs(request, name)
  {
    if "repo" in request {
      Glob.LiteralPatternMatchesOnlyItself(name, request["repo"]);
    }
  }

  // ---------------------------------------------------------------------------
  // The default ruleset (ruleset_spec.rb:34-40)
  // ---------------------------------------------------------------------------

  const RootRule: Rule := UserRepo(Init, Some("root/**"), None)
  const HgadminRule: Rule := UserRepo(Deny, None, Some("hgadmin"))
  const UsersRule: Rule := UserRepo(Write, Some("users/**"), None)

  // init user=root/**, deny repo=hgadmin, write user=users/**
  const DefaultRules: seq<Rule> := [RootRule, HgadminRule, UsersRule]

  /** The default ruleset is what `build` reads from its three lines. */
  lemma DefaultRulesBuild()
    ensures Build(RenderAll(DefaultRules)) == Ok(DefaultRules)
  {
    assert Writable(RootRule) && Writable(HgadminRule) && Writable(UsersRule);
    BuildRendered(DefaultRules);
  }

  lemma RootRuleMatches(request: Request)
    ensures RootRule.Matches(request) == UserUnder(request, "root/")
  {
    assert "root/**" == "root/" + "**";
    UserGlobMatches(Init, "root/", "**", None, request);
  }

  lemma HgadminRuleMatches(request: Request)
    ensures HgadminRule.Matches(request) == RepoIs(request, "hgadmin")
  {
    UserRepoMatches(Deny, None, Some("hgadmin"), request);
    RepoLiteralMatches("hgadmin", request);
  }

  lemma UsersRuleMatches(request: Request)
    ensures UsersRule.Matches(request) == UserUnder(request, "users/")
  {
    assert "users/**" == "users/" + "**";
    UserGlobMatches(Write, "users/", "**", None, request);
  }

  /**
   * The default ruleset in full: root principals may do anything, everyone else is
   * kept out of `hgadmin`, principals under `users/` may write and read elsewhere,
   * and nobody else is let in.
   */
  lemma DefaultVerdict(request: Request, level: Level)
    ensures Allow(DefaultRules, LevelName(level), request) ==
      if UserUnder(ResolveAliases(request), "root/") then true
      else if RepoIs(ResolveAliases(request), "hgadmin") then false
      else UserUnder(ResolveAliases(request), "users/") && Rank(level) >= Rank(Write)
  {
    var c := ResolveAliases(request);
    RootRuleMatches(c);
    HgadminRuleMatches(c);
    UsersRuleMatches(c);
    FindOfThree(RootRule, HgadminRule, UsersRule, MatchesOf(c));
    ParseLevelName(level);
  }

  /** `find` over three elements, written out. */
  lemma FindOfThree<T>(a: T, b: T, d: T, accepts: T -> bool)
    ensures Find([a, b, d], accepts) ==
      if accepts(a) then Some(0)
      else if accepts(b) then Some(1)
      else if accepts(d) then Some(2)
      else None
  {
    assert [d][1..] == [];
    assert Find([d], accepts) == if accepts(d) then Some(0) else None;
    assert [b, d][1..] == [d];
    assert Find([b, d], accepts) ==
      if accepts(b) then Some(0) else if accepts(d) then Some(1) else None;
    assert [a, b, d][1..] == [b, d];
  }

  /** Root principals may do anything, with or without a repository (ruleset_spec.rb:43-47, 76-81). */
  lemma RootMayDoAnything(request: Request, level: Level)
    requires "to" in request && HasPrefix(request["to"], "root/")
    ensures Allow(DefaultRules, LevelName(level), request)
  {
    DefaultVerdict(request, level);
  }

  /** Nobody but root reaches `hgadmin`, at any level (ruleset_spec.rb:50-53). */
  lemma HgadminClosedToOthers(user: string, level: Level)
    requires !HasPrefix(user, "root/")
    ensures !Allow(DefaultRules, LevelName(level), map["to" := user, "on" := "hgadmin"])
  {
    DefaultVerdict(map["to" := user, "on" := "hgadmin"], level);
  }

  /**
   * Principals under `users/` may write and read any other repository but not create
   * or publish one (ruleset_spec.rb:56-65, 94-101).
   */
  lemma UsersWriteButDoNotCreate(user: string, repo: string, level: Level)
    requires HasPrefix(user, "users/") && repo != "hgadmin"
    ensures Allow(DefaultRules, LevelName(level), map["to" := user, "on" := repo]) <==>
      level != Init && level != Publish
  {
    assert user[0] == 'u';
    DefaultVerdict(map["to" := user, "on" := repo], level);
  }

  /** A request that names nobody is refused whatever it asks for (ruleset_spec.rb:68-73). */
  lemma EmptyRequestRefused(level: string)
    ensures !Allow(DefaultRules, level, map[])
  {
    RootRuleMatches(ResolveAliases(map[]));
    HgadminRuleMatches(ResolveAliases(map[]));
    UsersRuleMatches(ResolveAliases(map[]));
    NoMatchRefuses(DefaultRules, level, map[]);
  }

  /** A principal outside `root/` and `users/` is refused even without a repository (ruleset_spec.rb:84-89). */
  lemma StrangerRefused(user: string, level: Level)
    requires !HasPrefix(user, "root/") && !HasPrefix(user, "users/")
    ensures !Allow(DefaultRules, LevelName(level), map["to" := user])
  {
    DefaultVerdict(map["to" := user], level);
  }

  /** `find` over four elements, written out. */
  lemma FindOfFour<T>(a: T, b: T, d: T, e: T, accepts: T -> bool)
    ensures Find([a, b, d, e], accepts) ==
      if accepts(a) then Some(0)
      else if accepts(b) then Some(1)
      else if accepts(d) then Some(2)
      else if accepts(e) then Some(3)
      else None
  {
    FindOfThree(b, d, e, accepts);
    assert [a, b, d, e][1..] == [b, d, e];
  }

  // ---------------------------------------------------------------------------
  // Rulesets 4 and 5 (ruleset_spec.rb:270-275 and 304-309): the same four rules,
  // with the deny rule after and before the write rule
  // ---------------------------------------------------------------------------

  const TotoRule: Rule := UserRepo(Read, Some("users/w/*"), Some("toto"))
  const WRule: Rule := UserRepo(Write, Some("users/w/*"), None)
  const DenyOnNoRule: Rule := UserRepo(Deny, Some("users/w/*"), Some("no"))
  const ReadersRule: Rule := UserRepo(Read, Some("users/**"), None)

  const Rules4: seq<Rule> := [TotoRule, WRule, DenyOnNoRule, ReadersRule]
  const Rules5: seq<Rule> := [TotoRule, DenyOnNoRule, WRule, ReadersRule]

  // The lines of rulesets 4 and 5, with the two spaces after `read` and `deny`.
  const Rules4Text: seq<string> :=
    [RenderPadded(TotoRule, " "), Render(WRule), RenderPadded(DenyOnNoRule, " "), RenderPadded(ReadersRule, " ")]
  const Rules5Text: seq<string> :=
    [RenderPadded(TotoRule, " "), RenderPadded(DenyOnNoRule, " "), Render(WRule), RenderPadded(ReadersRule, " ")]

  /** Each line of rulesets 4 and 5 reads back as its rule, whatever its column padding. */
  lemma LinesOfRulesets4And5()
    ensures ParseLine(RenderPadded(TotoRule, " ")) == Ok(Some(TotoRule))
    ensures ParseLine(Render(WRule)) == Ok(Some(WRule))
    ensures ParseLine(RenderPadded(DenyOnNoRule, " ")) == Ok(Some(DenyOnNoRule))
    ensures ParseLine(RenderPadded(ReadersRule, " ")) == Ok(Some(ReadersRule))
  {
    assert AllSpace(" ");
    assert Writable(TotoRule) && Writable(WRule) && Writable(DenyOnNoRule) && Writable(ReadersRule);
    assert TotoRule.patterns.EachCriteria() != [];
    assert DenyOnNoRule.patterns.EachCriteria() != [];
    assert ReadersRule.patterns.EachCriteria() != [];
    PaddedRenderParses(TotoRule, " ");
    RenderParses(WRule);
    PaddedRenderParses(DenyOnNoRule, " ");
    PaddedRenderParses(ReadersRule, " ");
  }

  /** `Gather` over four elements that each yield a value. */
  lemma GatherOfFour<X, T, E>(a: X, b: X, d: X, e: X, ra: T, rb: T, rd: T, re: T, step: X -> Result<Option<T>, E>)
    requires step(a) == Ok(Some(ra)) && step(b) == Ok(Some(rb))
    requires step(d) == Ok(Some(rd)) && step(e) == Ok(Some(re))
    ensures Gather([a, b, d, e], step) == Ok([ra, rb, rd, re])
  {
    assert [a, b, d, e][1..] == [b, d, e] && [b, d, e][1..] == [d, e] && [d, e][1..] == [e];
    assert [e][1..] == [] && Gather([], step) == Ok([]);
    assert [re] + [] == [re] && [rd] + [re] == [rd, re];
    assert [rb] + [rd, re] == [rb, rd, re] && [ra] + [rb, rd, re] == [ra, rb, rd, re];
    assert [a, b, d, e][0] == a && [b, d, e][0] == b && [d, e][0] == d && [e][0] == e;
    assert Gather([e], step) == Ok([re]);
    assert Gather([d, e], step) == Ok([rd, re]);
    assert Gather([b, d, e], step) == Ok([rb, rd, re]);
  }

  /** Ruleset 4 is what `build` reads from its four lines. */
  lemma Ruleset4Build()
    ensures Build(Rules4Text) == Ok(Rules4)
  {
    LinesOfRulesets4And5();
    GatherOfFour(RenderPadded(TotoRule, " "), Render(WRule), RenderPadded(DenyOnNoRule, " "),
      RenderPadded(ReadersRule, " "), TotoRule, WRule, DenyOnNoRule, ReadersRule, ParseLine);
  }

  /** Ruleset 5 is what `build` reads from its four lines. */
  lemma Ruleset5Build()
    ensures Build(Rules5Text) == Ok(Rules5)
  {
    LinesOfRulesets4And5();
    GatherOfFour(RenderPadded(TotoRule, " "), RenderPadded(DenyOnNoRule, " "), Render(WRule),
      RenderPadded(ReadersRule, " "), TotoRule, DenyOnNoRule, WRule, ReadersRule, ParseLine);
  }

  lemma TotoRuleMatches(request: Request)
    ensures TotoRule.Matches(request) == (UserUnder(request, "users/w/") && RepoIs(request, "toto"))
  {
    assert "users/w/*" == "users/w/" + "*";
    UserGlobMatches(Read, "users/w/", "*", Some("toto"), request);
    RepoLiteralMatches("toto", request);
  }

  lemma WRuleMatches(request: Request)
    ensures WRule.Matches(request) == UserUnder(request, "users/w/")
  {
    assert "users/w/*" == "users/w/" + "*";
    UserGlobMatches(Write, "users/w/", "*", None, request);
  }

  lemma DenyOnNoRuleMatches(request: Request)
    ensures DenyOnNoRule.Matches(request) == (UserUnder(request, "users/w/") && RepoIs(request, "no"))
  {
    assert "users/w/*" == "users/w/" + "*";
    UserGlobMatches(Deny, "users/w/", "*", Some("no"), request);
    RepoLiteralMatches("no", request);
  }

  lemma ReadersRuleMatches(request: Request)
    ensures ReadersRule.Matches(request) == UserUnder(request, "users/")
  {
    assert "users/**" == "users/" + "**";
    UserGlobMatches(Read, "users/", "**", None, request);
  }

  /**
   * Ruleset 4 in full: principals under `users/w/` may only read `toto` and may write
   * everywhere else, `no` included, because the write rule comes before the deny
   * rule; other principals under `users/` may read.
   */
  lemma Ruleset4Verdict(request: Request, level: Level)
    ensures Allow(Rules4, LevelName(level), request) ==
      if UserUnder(ResolveAliases(request), "users/w/") then
        if RepoIs(ResolveAliases(request), "toto") then Rank(level) >= Rank(Read)
        else Rank(level) >= Rank(Write)
      else UserUnder(ResolveAliases(request), "users/") && Rank(level) >= Rank(Read)
  {
    var c := ResolveAliases(request);
    TotoRuleMatches(c);
    WRuleMatches(c);
    DenyOnNoRuleMatches(c);
    ReadersRuleMatches(c);
    FindOfFour(TotoRule, WRule, DenyOnNoRule, ReadersRule, MatchesOf(c));
    ParseLevelName(level);
  }

  /**
   * Ruleset 5 in full: as ruleset 4, except that the deny rule now comes first and
   * shuts principals under `users/w/` out of `no` at every level.
   */
  lemma Ruleset5Verdict(request: Request, level: Level)
    ensures Allow(Rules5, LevelName(level), request) ==
      if UserUnder(ResolveAliases(request), "users/w/") then
        if RepoIs(ResolveAliases(request), "toto") then Rank(level) >= Rank(Read)
        else if RepoIs(ResolveAliases(request), "no") then false
        else Rank(level) >= Rank(Write)
      else UserUnder(ResolveAliases(request), "users/") && Rank(level) >= Rank(Read)
  {
    var c := ResolveAliases(request);
    TotoRuleMatches(c);
    WRuleMatches(c);
    DenyOnNoRuleMatches(c);
    ReadersRuleMatches(c);
    FindOfFour(TotoRule, DenyOnNoRule, WRule, ReadersRule, MatchesOf(c));
    ParseLevelName(level);
    if UserUnder(c, "users/w/") && !RepoIs(c, "toto") && RepoIs(c, "no") {
      assert FirstMatch(Rules5, c) == Some(1);
    }
  }

  /** In ruleset 4 the deny rule has no effect: the write rule matches first (ruleset_spec.rb:285-289). */
  lemma DenyAfterWriteHasNoEffect(user: string, level: Level)
    requires HasPrefix(user, "users/w/")
    ensures Allow(Rules4, LevelName(level), map["repo" := "no", "user" := user]) <==>
      level != Init && level != Publish
  {
    Ruleset4Verdict(map["repo" := "no", "user" := user], level);
  }

  /** In ruleset 5 the deny rule takes effect (ruleset_spec.rb:319-324). */
  lemma DenyBeforeWriteTakesEffect(user: string, level: Level)
    requires HasPrefix(user, "users/w/")
    ensures !Allow(Rules5, LevelName(level), map["repo" := "no", "user" := user])
  {
    Ruleset5Verdict(map["repo" := "no", "user" := user], level);
  }

  /** In both rulesets `users/w/` principals only read `toto` (ruleset_spec.rb:279-283, 313-317). */
  lemma TotoIsReadOnly(user: string, level: Level)
    requires HasPrefix(user, "users/w/")
    ensures Allow(Rules4, LevelName(level), map["repo" := "toto", "user" := user]) <==>
      level == Read || level == Deny
    ensures Allow(Rules5, LevelName(level), map["repo" := "toto", "user" := user]) <==>
      level == Read || level == Deny
  {
    Ruleset4Verdict(map["repo" := "toto", "user" := user], level);
    Ruleset5Verdict(map["repo" := "toto", "user" := user], level);
  }

  /** Elsewhere both rulesets let `users/w/` principals write (ruleset_spec.rb:291-294, 326-329). */
  lemma OtherReposWritable(user: string, repo: string, level: Level)
    requires HasPrefix(user, "users/w/") && repo != "toto" && repo != "no"
    ensures Allow(Rules4, LevelName(level), map["repo" := repo, "user" := user]) <==>
      level != Init && level != Publish
    ensures Allow(Rules5, LevelName(level), map["repo" := repo, "user" := user]) <==>
      level != Init && level != Publish
  {
    Ruleset4Verdict(map["repo" := repo, "user" := user], level);
    Ruleset5Verdict(map["repo" := repo, "user" := user], level);
  }
}
