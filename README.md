# Mercurial-Manager access rules in Dafny

This project models `MercurialManager::Ruleset`, the access-decision engine of
Mercurial-Manager. The engine answers one question: may a principal act at privilege
level L on a repository, file or branch?

- **Privilege levels** (`LEVELS`) are `init`, `publish`, `write`, `read` and `deny`, strongest first.
- **Rules.** Each `Rule` has a level and optional glob patterns for `user`, `repo`, `file` and
  `branch`. A rule matches a request when every pattern the rule sets finds a value in
  the request and the value matches it under `File.fnmatch` with `FNM_EXTGLOB`.
- **`Ruleset.build`** reads rule text line by line:
  - Each line is stripped, and lines starting with `#` are skipped.
  - A line is split on whitespace. The first word is the level, and each later word is
    `field=pattern`, split at its first `=`.
- **`Ruleset#allow`** works in four steps:
  1. It looks up the requested level.
  2. It renames the keywords `to` and `on` to `user` and `repo`.
  3. It finds the first matching rule.
  4. It allows the request when that rule is not a deny rule and the requested level is
     no stronger than the rule's.

Modules:

- `Wrappers`: `Option` and `Result`.
- `Glob`: `File.fnmatch(pattern, value, File::FNM_EXTGLOB)` over `seq<char>`, following Ruby's
  `dir.c`:
  - Brace alternatives are expanded first.
  - Then `*`, `?` and `[...]` classes (with `!`/`^` negation and ranges) are matched against
    the whole value.
  - A leading `.` of the value needs a literal `.` in the pattern.
  - Without `FNM_PATHNAME`, `*` crosses `/` and `**` is the same as `*`.
- `Ruleset`:
  - levels, criteria fields and `Rule`;
  - `match?` and `each_criteria`;
  - the line parser `build` and the constructor `new`;
  - `allow` as a pure function over `seq<Rule>` and a request `map<string, string>`.

  The in-place alias rewrite of `allow` is a map update.
- `RulesetFacts`: the properties of `Ruleset`:
  - exact matching semantics;
  - `build` keeps line order, and skipped lines add nothing;
  - a rule written as text reads back as itself;
  - first match wins, deny refuses every level, and the grant is a rank comparison;
  - alias equivalence;
  - a recursive reference definition of the scan.
- `RulesetAsWritten`: `build` and `allow` as the Ruby code behaves today, with `nil` entries for
  comment lines, a level-less rule for blank lines, an unchecked level token and a `nil`
  pattern for a field named without `=`. It
  shows where that differs from `Ruleset` (see Findings) and proves that the two agree on
  every ruleset without such lines.
- `RulesetExamples`: the rulesets of `spec/mercurial_manager/ruleset_spec.rb`, with
  their expectations proved for whole families of principals and repositories.

## Model

| member | source | states |
|---|---|---|
| Ruleset.Rank | lib/mercurial_manager/ruleset.rb:21 | a level's rank is its position in `LEVELS` |
| Ruleset.ParseLevel | lib/mercurial_manager/ruleset.rb:128 | `LEVELS.index(level)`: a token names a level exactly when it is that level's name; otherwise no level |
| Ruleset.ParseField | lib/mercurial_manager/ruleset.rb:32 | a key names a criteria field exactly when it is that field's name |
| Ruleset.Rule.LevelIndex | lib/mercurial_manager/ruleset.rb:60-62 | `level_index` is the position of the rule's level in `LEVELS` |
| Ruleset.Patterns.With | lib/mercurial_manager/ruleset.rb:99 | setting one field's pattern leaves every other field unchanged |
| Ruleset.All | lib/mercurial_manager/ruleset.rb:38 | `all?` holds exactly when the block holds for every element, so it is vacuously true on an empty enumeration |
| Ruleset.Patterns.EachCriteria | lib/mercurial_manager/ruleset.rb:46-56 | no ensures; `each_criteria`, whose meaning is stated by RulesetFacts.EachCriteriaExactly |
| Ruleset.Patterns.MatchedBy | lib/mercurial_manager/ruleset.rb:37-42 | no ensures; the body of `match?`, whose meaning is stated by RulesetFacts.MatchesExactly and MissingFieldFails |
| Ruleset.Rule.Matches | lib/mercurial_manager/ruleset.rb:37-42 | no ensures; `rule.match?`, the rule's patterns matched by the request (RulesetFacts.MatchesExactly) |
| Ruleset.Rule.IsDeny | lib/mercurial_manager/ruleset.rb:66-68 | no ensures; `deny?`, whose effect is stated by RulesetFacts.DenyRefusesEveryLevel |
| RulesetFacts.EachCriteriaExactly | lib/mercurial_manager/ruleset.rb:46-56 | `each_criteria` yields exactly the set fields with their patterns, in `CRITERIA_FIELDS` order, each once |
| RulesetFacts.MatchesExactly | lib/mercurial_manager/ruleset.rb:37-42 | a rule matches exactly when every field it sets is present in the request with a value that glob-matches the pattern |
| RulesetFacts.MissingFieldFails | lib/mercurial_manager/ruleset.rb:39 | a rule field that the request lacks makes the match fail |
| RulesetFacts.UnconstrainedRuleMatchesAll | lib/mercurial_manager/ruleset.rb:38 | a rule that sets no field matches every request |
| RulesetFacts.MatchesReadsOnlyFields | lib/mercurial_manager/ruleset.rb:37-42 | matching depends only on the request's `user`, `repo`, `file` and `branch` values |
| Glob.LiteralPatternMatchesOnlyItself | lib/mercurial_manager/ruleset.rb:40 | a pattern without `*`, `?`, `[` or `{` matches exactly the value equal to it |
| Glob.FnMatch | lib/mercurial_manager/ruleset.rb:40 | no ensures; `File.fnmatch` with `FNM_EXTGLOB`, whose meaning is stated by the Glob lemma rows of this table |
| Glob.Expand | lib/mercurial_manager/ruleset.rb:40 | no ensures; the brace expansion `FNM_EXTGLOB` enables, whose meaning is stated by Glob.FnMatchAlternation and Glob.ExpansionsAreBraceFree |
| Glob.LiteralThenStar | lib/mercurial_manager/ruleset.rb:40 | `w*` with `w` literal matches exactly the values starting with `w`, `/` included |
| Glob.DoubleStarIsStar | lib/mercurial_manager/ruleset.rb:40 | without `FNM_PATHNAME`, `**` matches exactly what `*` matches, in a pattern with no `[` before the `**` and no `{` |
| Glob.DoubleStarAnywhere | lib/mercurial_manager/ruleset.rb:40 | two adjacent `*` tokens match exactly what one does, whatever tokens stand before and after them |
| Glob.TokenizeAppend | lib/mercurial_manager/ruleset.rb:40 | text that opens no class tokenizes on its own: the tokens of `p + q` are those of `p` followed by those of `q` |
| Glob.QuestionMarkMatchesOneChar | lib/mercurial_manager/ruleset.rb:40 | `?` matches exactly the one-character values other than `.` |
| Glob.ClassOfCharacters | lib/mercurial_manager/ruleset.rb:40 | `[xs]` of plain characters matches exactly one character of `xs`, never a leading `.`; so `[]` matches nothing |
| Glob.NegatedClassOfCharacters | lib/mercurial_manager/ruleset.rb:40 | `[!xs]` and `[^xs]` match exactly one character not in `xs`, never a leading `.`; so `[!]` matches any one character |
| Glob.RangeClass | lib/mercurial_manager/ruleset.rb:40 | `[lo-hi]` matches exactly one character between `lo` and `hi` or equal to either end, so a reversed range matches only its ends; never a leading `.` |
| Glob.StarMatchesAll | lib/mercurial_manager/ruleset.rb:40 | `*` matches every value that does not start with `.` |
| Glob.LeadingPeriodNeedsLiteralPeriod | lib/mercurial_manager/ruleset.rb:40 | a brace-free pattern that does not start with `.` never matches a value that starts with `.` |
| Glob.FnMatchAlternation | lib/mercurial_manager/ruleset.rb:40 | for `a` and `b` without braces or commas, `pre{a,b}post` matches exactly what `pre a post` or `pre b post` matches |
| Glob.ExpansionsAreBraceFree | lib/mercurial_manager/ruleset.rb:40 | no alternative produced by brace expansion contains a `{` |
| Ruleset.Strip | lib/mercurial_manager/ruleset.rb:94 | `strip` leaves no whitespace or `NUL` at either end |
| Ruleset.TrimStart | lib/mercurial_manager/ruleset.rb:94 | the result is a suffix of the input, what it drops is whitespace or `NUL`, and it starts with neither |
| Ruleset.TrimEnd | lib/mercurial_manager/ruleset.rb:94 | the result is a prefix of the input, what it drops is whitespace or `NUL`, and it ends with neither |
| Ruleset.Words | lib/mercurial_manager/ruleset.rb:98 | `split` yields non-empty words without whitespace, and at least one for text that starts with a non-space |
| RulesetFacts.WordsAfterSpaces | lib/mercurial_manager/ruleset.rb:98 | a run of whitespace of any length before the text adds no word |
| RulesetFacts.WordsSplitAtRun | lib/mercurial_manager/ruleset.rb:98 | a word followed by a run of whitespace of any length is one token, and splitting goes on after the run |
| RulesetFacts.WordsOfJoin | lib/mercurial_manager/ruleset.rb:98 | splitting words joined by single spaces gives the same words back |
| RulesetFacts.TokensOfLine | lib/mercurial_manager/ruleset.rb:94-98 | a line of words that does not start with `#` is not skipped, and its tokens are those words |
| RulesetFacts.TokensOfPaddedLine | lib/mercurial_manager/ruleset.rb:94-98 | the same holds with a longer run of whitespace after the first word, as column-aligned rule text is written |
| Ruleset.SplitAtEquals | lib/mercurial_manager/ruleset.rb:99 | `split('=', 2)` cuts at the first `=`: the key has no `=`, and rejoining gives the token back |
| RulesetFacts.SplitAtFirstEquals | lib/mercurial_manager/ruleset.rb:99 | a pattern may itself contain `=`: `key=pattern` splits into exactly that key and pattern |
| RulesetFacts.ParseCriteriaSucceeds | lib/mercurial_manager/ruleset.rb:99-103 | the criteria read without error exactly when every token has a `=` and a known key |
| Ruleset.ParseCriteria | lib/mercurial_manager/ruleset.rb:99-103 | no ensures; the criteria hash, whose meaning is stated by RulesetFacts.ParseCriteriaSucceeds, LastTokenWins and OtherTokensKeep |
| RulesetFacts.LastTokenWins | lib/mercurial_manager/ruleset.rb:99 | with two tokens for the same field, the later one's pattern is kept, as in `Hash[...]` |
| RulesetFacts.OtherTokensKeep | lib/mercurial_manager/ruleset.rb:99 | tokens for other keys leave a field's pattern unchanged |
| Ruleset.ParseLine | lib/mercurial_manager/ruleset.rb:94-103 | a line yields no rule exactly when it is blank or a comment once stripped |
| RulesetFacts.ParseLineSucceeds | lib/mercurial_manager/ruleset.rb:95-103 | a line that is neither blank nor a comment builds a rule exactly when its first token names a level and every later token is a well-formed criterion |
| RulesetFacts.ParseLineCases | lib/mercurial_manager/ruleset.rb:95-103 | an unknown first token is an error, and a parsed rule's level is the line's first token |
| RulesetFacts.BareFieldRejected | lib/mercurial_manager/ruleset.rb:99-103 | a line that names a field without `=`, such as `write user`, is rejected with `MissingEquals` |
| RulesetFacts.RenderParses | lib/mercurial_manager/ruleset.rb:94-103 | a rule written as `level field=pattern ...` reads back as the same rule |
| RulesetFacts.PaddedTokens | lib/mercurial_manager/ruleset.rb:94-98 | for a rule with at least one pattern, its line padded after its level is not skipped and holds the rule's tokens |
| RulesetFacts.PaddedRenderParses | lib/mercurial_manager/ruleset.rb:94-103 | for a rule with at least one pattern, its line padded after its level reads back as the same rule |
| RulesetFacts.BuildRendered | lib/mercurial_manager/ruleset.rb:92-107 | lines written from rules build exactly those rules |
| Ruleset.RuleLines | lib/mercurial_manager/ruleset.rb:93-95 | the lines kept are lines of the input that are not skipped |
| Ruleset.Build | lib/mercurial_manager/ruleset.rb:92-107 | no ensures; `Ruleset.build`, whose meaning is stated by RulesetFacts.BuildSucceeds, BuildRules, BuildFirstError and BuildRendered |
| RulesetFacts.BuildSucceeds | lib/mercurial_manager/ruleset.rb:92-107 | `build` succeeds exactly when every line parses |
| RulesetFacts.BuildRules | lib/mercurial_manager/ruleset.rb:93-104 | `build` gives one rule per kept line, in line order, each the rule its line parses to |
| RulesetFacts.BuildFirstError | lib/mercurial_manager/ruleset.rb:93-104 | a failing `build` reports the error of its first bad line, and all earlier lines parse |
| RulesetFacts.BuildAppend | lib/mercurial_manager/ruleset.rb:93-106 | building two blocks of lines concatenates their rules, or reports the first error |
| RulesetFacts.IgnoredLineAddsNoRule | lib/mercurial_manager/ruleset.rb:95 | a comment or blank line changes nothing in what `build` returns |
| Ruleset.New | lib/mercurial_manager/ruleset.rb:111-113 | `new(*rules)` keeps every rule of every argument and nothing else |
| RulesetFacts.NewAppend | lib/mercurial_manager/ruleset.rb:112 | `flatten` keeps argument order: one more argument appends its rules at the end |
| RulesetFacts.NewOfOne | lib/mercurial_manager/ruleset.rb:106 | `new(rules)` from `build` holds exactly those rules |
| Ruleset.ResolveAliases | lib/mercurial_manager/ruleset.rb:131-132 | `to` becomes `user` and `on` becomes `repo`, winning over an explicit `user`/`repo`; other keys are untouched |
| RulesetFacts.ResolveAliasesIdempotent | lib/mercurial_manager/ruleset.rb:131-132 | resolving the aliases twice is the same as resolving them once |
| RulesetFacts.AliasEquivalence | lib/mercurial_manager/ruleset.rb:131-132 | `to:`/`on:` give the same verdict as `user:`/`repo:` with the same values |
| RulesetFacts.ToIsUser | lib/mercurial_manager/ruleset.rb:131 | `to:` alone gives the same verdict as `user:` with the same value, whatever other keys the request holds |
| RulesetFacts.OnIsRepo | lib/mercurial_manager/ruleset.rb:132 | `on:` alone gives the same verdict as `repo:` with the same value, whatever other keys the request holds |
| RulesetFacts.ToOverridesUser | lib/mercurial_manager/ruleset.rb:131 | with `to` present, an explicit `user` has no effect |
| RulesetFacts.OtherKeysIgnored | lib/mercurial_manager/ruleset.rb:127-143 | a request key that is neither an alias nor a criteria field has no effect on the verdict |
| Ruleset.FindIsFirst | lib/mercurial_manager/ruleset.rb:135 | `find` returns the first accepted element, and nothing when none is accepted |
| Ruleset.Find | lib/mercurial_manager/ruleset.rb:135 | no ensures; `find` as a position, whose meaning is stated by Ruleset.FindIsFirst |
| Ruleset.FirstMatch | lib/mercurial_manager/ruleset.rb:135 | the rule found is the first that matches; when none is found, no rule matches |
| Ruleset.FirstMatchIsUnique | lib/mercurial_manager/ruleset.rb:135 | there is only one first match |
| Ruleset.Allow | lib/mercurial_manager/ruleset.rb:127-144 | allowed exactly when the level is known and the first matching rule grants it; an unknown level is refused |
| RulesetFacts.AllowIsScan | lib/mercurial_manager/ruleset.rb:135-143 | `allow` equals a recursive scan that lets the first matching rule decide and refuses when none matches |
| RulesetFacts.ScanIsFind | lib/mercurial_manager/ruleset.rb:135-143 | the recursive scan allows exactly when the rule `find` returns grants the level |
| RulesetFacts.FirstMatchDecides | lib/mercurial_manager/ruleset.rb:135-143 | the verdict depends only on the first matching rule |
| RulesetFacts.LaterRulesHaveNoEffect | lib/mercurial_manager/ruleset.rb:135 | once some rule matches, appending rules changes nothing |
| RulesetFacts.NonMatchingRuleHasNoEffect | lib/mercurial_manager/ruleset.rb:135 | a rule that does not match can be removed from anywhere without changing the verdict |
| RulesetFacts.UnconstrainedRuleEndsScan | lib/mercurial_manager/ruleset.rb:135-143 | a rule with no fields decides every request that reaches it |
| RulesetFacts.SameMatchesSameVerdict | lib/mercurial_manager/ruleset.rb:135-143 | two requests that every rule matches alike get the same verdict |
| RulesetFacts.NoMatchRefuses | lib/mercurial_manager/ruleset.rb:141 | when no rule matches, the request is refused |
| RulesetFacts.EmptyRulesetRefuses | lib/mercurial_manager/ruleset.rb:141 | an empty ruleset refuses everything |
| RulesetFacts.DenyRefusesEveryLevel | lib/mercurial_manager/ruleset.rb:142 | a deny rule as first match refuses every requested level |
| RulesetFacts.GrantIsRankComparison | lib/mercurial_manager/ruleset.rb:143 | under a non-deny first match at level G, level R is allowed exactly when rank(R) >= rank(G) |
| RulesetFacts.AllowIsDownwardClosed | lib/mercurial_manager/ruleset.rb:143 | whoever may act at a level may act at every weaker level |
| RulesetFacts.WriteGrant | lib/mercurial_manager/ruleset.rb:143 | a `write` grant allows `write` and `read` and refuses `publish` and `init` |
| RulesetFacts.RequestingDenyLevel | lib/mercurial_manager/ruleset.rb:128-143 | requesting the level `deny` is allowed exactly when the first match is not a deny rule |
| RulesetFacts.UnknownLevelRefused | lib/mercurial_manager/ruleset.rb:128 | a level outside `LEVELS` is refused whatever the rules |
| RulesetAsWritten.Unset | lib/mercurial_manager/ruleset.rb:99-103 | a `nil` value for a field's key leaves that field unset and every other field as it was |
| RulesetAsWritten.ParseCriteriaAsWritten | lib/mercurial_manager/ruleset.rb:99-103 | as written, the criteria raise exactly when some key (the text before `=`, or the whole token) is neither a field nor `level`, and then only with the unknown-key error |
| RulesetAsWritten.BareField | lib/mercurial_manager/ruleset.rb:99 | as written, a field named alone, without `=`, unsets that field |
| RulesetAsWritten.ParseCriteriaAgrees | lib/mercurial_manager/ruleset.rb:99-103 | on tokens the corrected parser accepts, the as-written reading gives the same patterns |
| RulesetAsWritten.ParseLineAsWritten | lib/mercurial_manager/ruleset.rb:93-103 | as written, only a comment line yields a `nil` entry |
| RulesetAsWritten.BuildAsWritten | lib/mercurial_manager/ruleset.rb:93-106 | as written, `build` keeps one entry per input line |
| RulesetAsWritten.ScanAsWritten | lib/mercurial_manager/ruleset.rb:135 | as written, a rule the scan finds is one of the entries |
| RulesetAsWritten.AllowAsWritten | lib/mercurial_manager/ruleset.rb:127-144 | as written, an unknown requested level returns false |
| RulesetAsWritten.ScanAsWrittenIsFirst | lib/mercurial_manager/ruleset.rb:135 | as written, `find` stops at the first entry that is `nil` (and raises) or matches (and returns that rule), and finds nothing when every entry is a rule that does not match |
| RulesetAsWritten.AllowAsWrittenOf | lib/mercurial_manager/ruleset.rb:127-144 | as written, for a known level: `allow` raises exactly when `find` stops at a `nil` entry or at a matching rule whose level raises; it returns true exactly when the rule it stops at grants the level, and false when no entry matches or that rule refuses |
| RulesetAsWritten.ScanStopsAtUnconstrained | lib/mercurial_manager/ruleset.rb:135 | as written, an entry with no fields matches, and the scan stops there |
| RulesetAsWritten.CommentLineKept | lib/mercurial_manager/ruleset.rb:93-95 | a comment line adds a `nil` entry where the corrected `build` adds nothing |
| RulesetAsWritten.CommentLineRaises | lib/mercurial_manager/ruleset.rb:135 | a `nil` entry reached by the scan raises, whatever the request |
| RulesetAsWritten.BlankLineKept | lib/mercurial_manager/ruleset.rb:94-103 | a blank line adds a rule with no level and no fields where the corrected `build` adds nothing |
| RulesetAsWritten.BlankLineRaises | lib/mercurial_manager/ruleset.rb:135-143 | a level-less rule reached by the scan matches and raises in `level_index` |
| RulesetAsWritten.UnknownLevelKept | lib/mercurial_manager/ruleset.rb:98-103 | a line with an unknown level builds as written, where the corrected `build` reports the error |
| RulesetAsWritten.UnknownLevelRaises | lib/mercurial_manager/ruleset.rb:141-143 | a rule with an unknown level that is the first match raises at the rank comparison |
| RulesetAsWritten.BareFieldLine | lib/mercurial_manager/ruleset.rb:98-103 | as written, `level field` with no `=` builds a rule with that level and no patterns |
| RulesetAsWritten.BareFieldWidens | lib/mercurial_manager/ruleset.rb:135-143 | such a rule matches every request that reaches it and grants its level to every principal on every repository |
| RulesetAsWritten.BuildAgrees | lib/mercurial_manager/ruleset.rb:92-107 | on text without comment or blank lines that builds, the as-written `build` gives the corrected rules |
| RulesetAsWritten.ScanAgrees | lib/mercurial_manager/ruleset.rb:135 | on corrected rules, the as-written scan finds the same first match |
| RulesetAsWritten.VerdictAgrees | lib/mercurial_manager/ruleset.rb:141-143 | on a corrected rule, the as-written verdict is the corrected one |
| RulesetAsWritten.AllowAgrees | lib/mercurial_manager/ruleset.rb:127-144 | on corrected rules, the as-written `allow` returns exactly the corrected verdict and never raises |
| RulesetExamples.DefaultRulesBuild | spec/mercurial_manager/ruleset_spec.rb:34-38 | the three lines of the default ruleset build the three rules |
| RulesetExamples.LinesOfRulesets4And5 | spec/mercurial_manager/ruleset_spec.rb:270-275 | each line of rulesets 4 and 5, with two spaces after `read` and `deny`, reads back as its rule |
| RulesetExamples.Ruleset4Build | spec/mercurial_manager/ruleset_spec.rb:270-275 | the four lines of ruleset 4 build its four rules, in order |
| RulesetExamples.Ruleset5Build | spec/mercurial_manager/ruleset_spec.rb:304-309 | the four lines of ruleset 5 build its four rules, in order |
| RulesetExamples.DefaultVerdict | spec/mercurial_manager/ruleset_spec.rb:34-101 | default ruleset: root principals may do anything; others are kept out of `hgadmin`; `users/` principals may write and read elsewhere; nobody else is let in |
| RulesetExamples.RootMayDoAnything | spec/mercurial_manager/ruleset_spec.rb:43-47 | a root principal is allowed at every level, with or without a repository |
| RulesetExamples.HgadminClosedToOthers | spec/mercurial_manager/ruleset_spec.rb:50-53 | a non-root principal is refused on `hgadmin` at every level |
| RulesetExamples.UsersWriteButDoNotCreate | spec/mercurial_manager/ruleset_spec.rb:56-65 | a `users/` principal may write and read another repository but not init or publish it |
| RulesetExamples.EmptyRequestRefused | spec/mercurial_manager/ruleset_spec.rb:68-73 | a request naming nobody is refused |
| RulesetExamples.StrangerRefused | spec/mercurial_manager/ruleset_spec.rb:84-89 | a principal outside `root/` and `users/` is refused at every level |
| RulesetExamples.Ruleset4Verdict | spec/mercurial_manager/ruleset_spec.rb:270-295 | ruleset 4 in full: `users/w/` principals only read `toto` and write everywhere else |
| RulesetExamples.Ruleset5Verdict | spec/mercurial_manager/ruleset_spec.rb:304-330 | ruleset 5 in full: as ruleset 4, except that `users/w/` principals are refused on `no`; ruleset 3 (ruleset_spec.rb:199-262) has the same four lines, so this also covers its expectations for `users/w/`, `users/k/` and other principals |
| RulesetExamples.DenyAfterWriteHasNoEffect | spec/mercurial_manager/ruleset_spec.rb:285-289 | a deny rule after a matching write rule has no effect |
| RulesetExamples.DenyBeforeWriteTakesEffect | spec/mercurial_manager/ruleset_spec.rb:319-324 | the same deny rule placed first refuses every level |
| RulesetExamples.TotoIsReadOnly | spec/mercurial_manager/ruleset_spec.rb:279-283 | in both rulesets `users/w/` principals may only read `toto` |
| RulesetExamples.OtherReposWritable | spec/mercurial_manager/ruleset_spec.rb:291-294 | in both rulesets `users/w/` principals may write any other repository |

## Left out

- Logging through Loggability (`log_to`, the `log.debug` calls at lines 97, 102 and 136) and
  both `inspect` methods. They only produce diagnostics.
- `File.fnmatch` is a foreign call into Ruby's `dir.c`. `Glob` is a model of it, not a proof
  that it equals the C code. Backslash escapes in patterns are not modelled.
- Ruby's `fnmatch` raises `ArgumentError` on a `NUL` character in the pattern or in the
  request value. The model matches `NUL` like any other character, so `allow` returns a
  verdict where Ruby raises.
- Glob.DoubleStarIsStar: proved through `Tokenize` and `Expand` only for patterns with no `[`
  before the `**` and no `{` anywhere. After a class, and inside brace alternatives, the
  equivalence is proved at token level only (Glob.DoubleStarAnywhere).
- Ruby exceptions for malformed lines are modelled as `ParseError` values:
  - an unknown key is the `Struct` keyword error, `UnknownField`;
  - an unknown level is `UnknownLevel`;
  - in the corrected parser, a token without `=` is `MissingEquals` (see Findings). As
    written it is stored as `key => nil`: a field named alone is left unset, `level` alone
    has no effect, and any other key raises `UnknownField`.

  The as-written behaviour is in `RulesetAsWritten`.
- Ruleset.Allow: `allow` compares the requested level with `LEVELS`, which holds symbols. The
  model takes the level as its name, so a `String` level (always refused in Ruby) is the
  same as the symbol. The `nil` that `allow` returns when no rule matches is modelled as `false`.
- Request values are strings. A `nil` value is modelled as a missing key. For a criteria
  field (`val = criteria[key] or break false`) the two behave alike. For an alias they do
  not: `to: nil` still takes the branch at ruleset.rb:131, because `key?(:to)` holds, so
  `user` becomes `nil` and an explicit `user:` is dropped; the model keeps the explicit
  `user:`. The same holds for `on: nil` and `repo:` at ruleset.rb:132.
- Ruleset.New: only one level of nesting in the arguments of `new(*rules)` is modelled;
  `flatten` of deeper arrays is not.
- The key `level=` inside a rule line is accepted and has no effect. In Ruby the line's
  first word is stored under `:level` after the hash, so it always wins.
- RulesetExamples: the example rulesets are rule values. The default ruleset and rulesets
  4 and 5 are also read from their text, written from the rules with the same words and
  spacing as in `ruleset_spec.rb`. Ruleset 3 has the same four lines as ruleset 5, so Rules5,
  Ruleset5Build and Ruleset5Verdict cover its expectations (ruleset_spec.rb:208-262).
  Ruleset 2 and the publish ruleset are not restated.
- The `rules` reader and object identity are not modelled. A ruleset is its sequence of rules.

## Findings

| source | as written | input that shows it | evidently intended | confidence | as-written member | corrected member |
|---|---|---|---|---|---|---|
| lib/mercurial_manager/ruleset.rb:93-95 | `next` inside `map` turns a comment line into a `nil` element, which `flatten` keeps; `find` then calls `match?` on `nil` | a ruleset text containing the line `# c`, and any request that reaches it | a comment line adds no rule | not executed | RulesetAsWritten.CommentLineRaises | RulesetFacts.IgnoredLineAddsNoRule |
| lib/mercurial_manager/ruleset.rb:94-103 | a blank line is not skipped: it becomes a rule with no level and no patterns, which matches every request, and `level_index` then calls `to_sym` on `nil` | a ruleset text containing an empty line, and any request that reaches it | a blank line adds no rule | not executed | RulesetAsWritten.BlankLineRaises | RulesetFacts.IgnoredLineAddsNoRule |
| lib/mercurial_manager/ruleset.rb:98-103 | the first word is not checked against `LEVELS`, so `level_index` is `nil` and the comparison at line 143 raises | the line `admin` and any request at a known level | an unknown level is rejected when the rule is built | not executed | RulesetAsWritten.UnknownLevelRaises | RulesetFacts.ParseLineSucceeds |
| lib/mercurial_manager/ruleset.rb:99-103 | a token without `=` becomes a one-element pair, which `Hash[]` stores as `key => nil`; a field named alone is then unset, and the rule matches every request that other fields allow | the line `write user`, which grants `write` to every principal on every repository | a criteria token without `=` is rejected | not executed | RulesetAsWritten.BareFieldLine | RulesetFacts.BareFieldRejected |
