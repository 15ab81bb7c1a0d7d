/**
 * What the ruleset engine promises, proved about the definitions in module Ruleset:
 * how a rule matches, how rule text is read back, and how `allow` decides.
 */
module RulesetFacts {
  import opened Wrappers
  import Glob
  import opened Ruleset

  // ---------------------------------------------------------------------------
  // each_criteria and match?
  // ---------------------------------------------------------------------------

  /**
   * `each_criteria` yields exactly the fields the rule sets, each with its own pattern,
   * without repeats and in `CRITERIA_FIELDS` order.
   */
  lemma EachCriteriaExactly(p: Patterns)
    ensures forall i :: 0 <= i < |p.EachCriteria()| ==>
      p.Get(p.EachCriteria()[i].0) == Some(p.EachCriteria()[i].1)
    ensures forall f :: p.Get(f).Some? ==> (f, p.Get(f).value) in p.EachCriteria()
    ensures forall i, j :: 0 <= i < j < |p.EachCriteria()| ==>
      FieldIndex(p.EachCriteria()[i].0) < FieldIndex(p.EachCriteria()[j].0)
  {
    var u, r, f, b := p.Criterion(User), p.Criterion(Repo), p.Criterion(File), p.Criterion(Branch);
    var all := p.EachCriteria();
    assert all == u + r + f + b;
    forall i | 0 <= i < |all| ensures p.Get(all[i].0) == Some(all[i].1) {
      if i < |u| { assert all[i] == u[i]; }
      else if i < |u| + |r| { assert all[i] == r[i - |u|]; }
      else if i < |u| + |r| + |f| { assert all[i] == f[i - |u| - |r|]; }
      else { assert all[i] == b[i - |u| - |r| - |f|]; }
    }
  }

  /** `all?` over a list holding exactly the set fields is a check of every set field. */
  lemma AllCriteriaHold(cs: seq<(Field, string)>, p: Patterns, request: Request)
    requires forall i :: 0 <= i < |cs| ==> p.Get(cs[i].0) == Some(cs[i].1)
    requires forall f :: p.Get(f).Some? ==> (f, p.Get(f).value) in cs
    ensures All(cs, (c: (Field, string)) => Satisfies(request, c.0, c.1)) <==>
            forall f :: Admits(f, p.Get(f), request)
  {
    var holds := (c: (Field, string)) => Satisfies(request, c.0, c.1);
    if All(cs, holds) {
      forall f ensures Admits(f, p.Get(f), request) {
        if p.Get(f).Some? {
          var i :| 0 <= i < |cs| && cs[i] == (f, p.Get(f).value);
          assert holds(cs[i]);
        }
      }
    } else {
      var i :| 0 <= i < |cs| && !holds(cs[i]);
      assert !Admits(cs[i].0, p.Get(cs[i].0), request);
    }
  }

  /**
   * `match?`: a rule matches a request exactly when every field the rule sets is
   * supplied by the request with a value that glob-matches the field's pattern.
   */
  lemma MatchesExactly(rule: Rule, request: Request)
    ensures rule.Matches(request) <==> forall f :: Admits(f, rule.patterns.Get(f), request)
  {
    EachCriteriaExactly(rule.patterns);
    AllCriteriaHold(rule.patterns.EachCriteria(), rule.patterns, request);
  }

  /** A field the rule sets but the request does not supply makes the match fail. */
  lemma MissingFieldFails(rule: Rule, request: Request, f: Field)
    requires rule.patterns.Get(f).Some? && FieldName(f) !in request
    ensures !rule.Matches(request)
  {
    MatchesExactly(rule, request);
    assert !Admits(f, rule.patterns.Get(f), request);
  }

  /** A rule that sets no field matches every request. */
  lemma UnconstrainedRuleMatchesAll(level: Level, request: Request)
    ensures Rule(level, NoPatterns).Matches(request)
  {
    assert NoPatterns.EachCriteria() == [];
  }

  /** Only the values of the four criteria fields take part in a match. */
  lemma MatchesReadsOnlyFields(rule: Rule, r1: Request, r2: Request)
    requires forall f :: (FieldName(f) in r1 <==> FieldName(f) in r2)
    requires forall f :: FieldName(f) in r1 ==> r1[FieldName(f)] == r2[FieldName(f)]
    ensures rule.Matches(r1) == rule.Matches(r2)
  {
    MatchesExactly(rule, r1);
    MatchesExactly(rule, r2);
    assert forall f :: Admits(f, rule.patterns.Get(f), r1) == Admits(f, rule.patterns.Get(f), r2);
  }

  // ---------------------------------------------------------------------------
  // Reading rule text
  // ---------------------------------------------------------------------------

  /** The run of non-whitespace at the start of `w + rest` is `w` when `rest` starts with whitespace. */
  lemma {:induction false} WordLengthOfWord(w: string, rest: string)
    requires NoSpace(w)
    requires rest == [] || IsSpace(rest[0])
    ensures WordLength(w + rest) == |w|
    decreases |w|
  {
    if w != [] {
      assert (w + rest)[0] == w[0];
      assert (w + rest)[1..] == w[1..] + rest;
      assert NoSpace(w[1..]) by {
        forall i | 0 <= i < |w[1..]| ensures !IsSpace(w[1..][i]) {
          assert w[1..][i] == w[i + 1];
        }
      }
      WordLengthOfWord(w[1..], rest);
    }
  }

  /** `s` is whitespace only. */
  predicate AllSpace(s: string) {
    forall i :: 0 <= i < |s| ==> IsSpace(s[i])
  }

  /** Whitespace in front of the text adds no word, however long the run. */
  lemma {:induction false} WordsAfterSpaces(sep: string, rest: string)
    requires AllSpace(sep)
    ensures Words(sep + rest) == Words(rest)
    decreases |sep|
  {
    if sep == [] {
      assert sep + rest == rest;
    } else {
      assert (sep + rest)[0] == sep[0] && (sep + rest)[1..] == sep[1..] + rest;
      assert AllSpace(sep[1..]) by {
        forall i | 0 <= i < |sep[1..]| ensures IsSpace(sep[1..][i]) {
          assert sep[1..][i] == sep[i + 1];
        }
      }
      WordsAfterSpaces(sep[1..], rest);
    }
  }

  /** A word followed by any run of whitespace is one token, and `split` goes on after the run. */
  lemma WordsSplitAtRun(w: string, sep: string, rest: string)
    requires IsWord(w) && sep != [] && AllSpace(sep)
    ensures Words(w + sep + rest) == [w] + Words(rest)
  {
    var s := w + sep + rest;
    assert s == w + (sep + rest);
    assert (sep + rest)[0] == sep[0];
    WordLengthOfWord(w, sep + rest);
    assert s[0] == w[0];
    assert s[..|w|] == w && s[|w|..] == sep + rest;
    WordsAfterSpaces(sep, rest);
  }

  /** `split` recovers the words that `Join` put together. */
  lemma {:induction false} WordsOfJoin(ws: seq<string>)
    requires forall i :: 0 <= i < |ws| ==> IsWord(ws[i])
    ensures Words(Join(ws)) == ws
    decreases |ws|
  {
    if ws == [] {
    } else if |ws| == 1 {
      var w := ws[0];
      WordLengthOfWord(w, []);
      assert w + [] == w;
      assert w[..|w|] == w && w[|w|..] == [];
      assert Words(w) == [w] + Words([]);
    } else {
      var w := ws[0];
      var rest := Join(ws[1..]);
      var s := w + " " + rest;
      assert Join(ws) == s;
      assert s == w + (" " + rest);
      WordLengthOfWord(w, " " + rest);
      assert s[0] == w[0];
      assert s[..|w|] == w;
      assert s[|w|..] == " " + rest;
      assert (" " + rest)[1..] == rest;
      assert Words(" " + rest) == Words(rest);
      WordsOfJoin(ws[1..]);
      assert Words(s) == [w] + ws[1..];
      assert [w] + ws[1..] == ws;
    }
  }

  /** Joined words neither start nor end with whitespace. */
  lemma {:induction false} JoinEnds(ws: seq<string>)
    requires ws != [] && forall i :: 0 <= i < |ws| ==> IsWord(ws[i])
    ensures Join(ws) != [] && ws[0] != [] && Join(ws)[0] == ws[0][0]
    ensures ws[|ws| - 1] != [] && Join(ws)[|Join(ws)| - 1] == ws[|ws| - 1][|ws[|ws| - 1]| - 1]
    ensures !IsSpace(Join(ws)[|Join(ws)| - 1])
    decreases |ws|
  {
    if |ws| > 1 {
      assert forall i :: 0 <= i < |ws[1..]| ==> ws[1..][i] == ws[i + 1];
      JoinEnds(ws[1..]);
      var rest := Join(ws[1..]);
      assert Join(ws) == ws[0] + " " + rest;
      assert Join(ws)[|Join(ws)| - 1] == rest[|rest| - 1];
      assert ws[1..][|ws[1..]| - 1] == ws[|ws| - 1];
    }
  }

  /** Stripping a line that ends in a newline and has nothing else around it to strip. */
  lemma StripLine(text: string)
    requires text != [] && !IsStripped(text[0]) && !IsStripped(text[|text| - 1])
    ensures Strip(text + "\n") == text
  {
    var line := text + "\n";
    assert line[0] == text[0];
    assert TrimStart(line) == line;
    assert line[..|line| - 1] == text;
    assert TrimEnd(line) == TrimEnd(text);
  }

  /** The line of joined words is a rule line whose tokens are those words. */
  lemma TokensOfLine(ws: seq<string>)
    requires ws != [] && forall i :: 0 <= i < |ws| ==> IsWord(ws[i])
    requires ws[0] != [] && ws[0][0] != '#' && ws[0][0] != '\0'
    requires ws[|ws| - 1] != [] && ws[|ws| - 1][|ws[|ws| - 1]| - 1] != '\0'
    ensures !IsIgnored(Join(ws) + "\n") && Tokens(Join(ws) + "\n") == ws
  {
    var text := Join(ws);
    JoinEnds(ws);
    StripLine(text);
    WordsOfJoin(ws);
    assert Strip(text + "\n") == text && text[0] != '#';
    assert Tokens(text + "\n") == Words(text);
  }

  /** `split('=', 2)` cuts at the first `=`: the pattern may itself hold `=`. */
  lemma SplitAtFirstEquals(key: string, pattern: string)
    requires '=' !in key
    ensures SplitAtEquals(key + "=" + pattern) == Some((key, pattern))
  {
    var token := key + "=" + pattern;
    assert token[..|key|] == key;
    assert token[|key|] == '=';
    Glob.IndexOfAt(token, '=', |key|);
    assert token[|key| + 1..] == pattern;
  }

  /** The key of a criteria token, when it has one. */
  function KeyOf(token: string): Option<string> {
    match SplitAtEquals(token)
    case None => None
    case Some(kv) => Some(kv.0)
  }

  /** A token `ParseCriteria` accepts: it has an `=`, and its key is a field or `level`. */
  predicate IsCriterion(token: string) {
    KeyOf(token).Some? && (KeyOf(token).value == "level" || ParseField(KeyOf(token).value).Some?)
  }

  /** The criteria tokens of a line parse exactly when each of them is well formed. */
  lemma {:induction false} ParseCriteriaSucceeds(tokens: seq<string>, acc: Patterns)
    ensures ParseCriteria(tokens, acc).Ok? <==> forall i :: 0 <= i < |tokens| ==> IsCriterion(tokens[i])
    decreases |tokens|
  {
    if tokens != [] {
      assert forall i :: 0 < i < |tokens| ==> tokens[i] == tokens[1..][i - 1];
      match SplitAtEquals(tokens[0])
      case None =>
      case Some(kv) =>
        if kv.0 == "level" {
          ParseCriteriaSucceeds(tokens[1..], acc);
        } else {
          match ParseField(kv.0)
          case None =>
          case Some(f) => ParseCriteriaSucceeds(tokens[1..], acc.With(f, kv.1));
        }
    }
  }

  /** Parsing criteria tokens in two parts is parsing them all at once. */
  lemma {:induction false} ParseCriteriaAppend(t1: seq<string>, t2: seq<string>, acc: Patterns)
    ensures ParseCriteria(t1 + t2, acc) ==
      match ParseCriteria(t1, acc)
      case Err(e) => Err(e)
      case Ok(mid) => ParseCriteria(t2, mid)
    decreases |t1|
  {
    if t1 == [] {
      assert t1 + t2 == t2;
    } else {
      assert (t1 + t2)[0] == t1[0] && (t1 + t2)[1..] == t1[1..] + t2;
      match SplitAtEquals(t1[0])
      case None =>
      case Some(kv) =>
        if kv.0 == "level" {
          ParseCriteriaAppend(t1[1..], t2, acc);
        } else {
          match ParseField(kv.0)
          case None =>
          case Some(f) => ParseCriteriaAppend(t1[1..], t2, acc.With(f, kv.1));
        }
    }
  }

  /** Tokens that do not name field `f` leave its pattern as it was. */
  lemma {:induction false} OtherTokensKeep(tokens: seq<string>, acc: Patterns, f: Field)
    requires ParseCriteria(tokens, acc).Ok?
    requires forall i :: 0 <= i < |tokens| ==> KeyOf(tokens[i]) != Some(FieldName(f))
    ensures ParseCriteria(tokens, acc).value.Get(f) == acc.Get(f)
    decreases |tokens|
  {
    if tokens != [] {
      assert forall i :: 0 < i < |tokens| ==> tokens[i] == tokens[1..][i - 1];
      var kv := SplitAtEquals(tokens[0]).value;
      assert KeyOf(tokens[0]) == Some(kv.0);
      if kv.0 == "level" {
        OtherTokensKeep(tokens[1..], acc, f);
      } else {
        var g := ParseField(kv.0).value;
        assert g != f;
        OtherTokensKeep(tokens[1..], acc.With(g, kv.1), f);
      }
    }
  }

  /**
   * The last token for a field gives its pattern, as `Hash[...]` keeps the last value
   * for a repeated key.
   */
  lemma LastTokenWins(pre: seq<string>, f: Field, pattern: string, post: seq<string>, acc: Patterns)
    requires ParseCriteria(pre + [FieldName(f) + "=" + pattern] + post, acc).Ok?
    requires forall i :: 0 <= i < |post| ==> KeyOf(post[i]) != Some(FieldName(f))
    ensures ParseCriteria(pre + [FieldName(f) + "=" + pattern] + post, acc).value.Get(f) == Some(pattern)
  {
    var token := FieldName(f) + "=" + pattern;
    ParseCriteriaAppend(pre, [token] + post, acc);
    assert pre + [token] + post == pre + ([token] + post);
    var mid := ParseCriteria(pre, acc).value;
    SplitAtFirstEquals(FieldName(f), pattern);
    assert ([token] + post)[0] == token && ([token] + post)[1..] == post;
    assert ParseField(FieldName(f)) == Some(f);
    OtherTokensKeep(post, mid.With(f, pattern), f);
  }

  /** What `ParseLine` makes of a line that is neither blank nor a comment. */
  lemma ParseLineCases(line: string)
    ensures !IsIgnored(line) ==> |Tokens(line)| >= 1
    ensures !IsIgnored(line) && ParseLevel(Tokens(line)[0]).None? ==>
      ParseLine(line) == Err(UnknownLevel(Tokens(line)[0]))
    ensures ParseLine(line).Ok? && ParseLine(line).value.Some? ==>
      LevelName(ParseLine(line).value.value.level) == Tokens(line)[0] &&
      ParseCriteria(Tokens(line)[1..], NoPatterns) == Ok(ParseLine(line).value.value.patterns)
  {
  }

  /**
   * A line that is neither blank nor a comment builds a rule exactly when its first
   * token names a level and every later token is a well-formed criterion, so that a
   * line such as `read branch=main extra=x` is rejected.
   */
  lemma ParseLineSucceeds(line: string)
    requires !IsIgnored(line)
    ensures |Tokens(line)| >= 1
    ensures ParseLine(line).Ok? <==>
      ParseLevel(Tokens(line)[0]).Some? &&
      forall j :: 1 <= j < |Tokens(line)| ==> IsCriterion(Tokens(line)[j])
    ensures ParseLine(line).Ok? ==> ParseLine(line).value.Some?
  {
    var tokens := Tokens(line);
    ParseCriteriaSucceeds(tokens[1..], NoPatterns);
    assert forall j :: 1 <= j < |tokens| ==> tokens[j] == tokens[1..][j - 1];
  }

  /** A line that names a field without `=`, such as `write user`, is rejected. */
  lemma BareFieldRejected(l: Level, f: Field)
    ensures ParseLine(Join([LevelName(l), FieldName(f)]) + "\n") == Err(MissingEquals(FieldName(f)))
  {
    var ws := [LevelName(l), FieldName(f)];
    TokensOfLine(ws);
    ParseLevelName(l);
    assert ws[1..] == [FieldName(f)];
    assert '=' !in FieldName(f);
  }

  // ---------------------------------------------------------------------------
  // Writing a rule as text, and reading it back
  // ---------------------------------------------------------------------------

  /** A criteria token `field=pattern`. */
  function CriterionToken(c: (Field, string)): string {
    FieldName(c.0) + "=" + c.1
  }

  function CriteriaTokens(cs: seq<(Field, string)>): (r: seq<string>)
    ensures |r| == |cs|
    ensures forall i :: 0 <= i < |r| ==> r[i] == CriterionToken(cs[i])
  {
    if cs == [] then [] else [CriterionToken(cs[0])] + CriteriaTokens(cs[1..])
  }

  /** The tokens of a rule's line: its level, then its fields in `CRITERIA_FIELDS` order. */
  function RuleTokens(rule: Rule): seq<string> {
    [LevelName(rule.level)] + CriteriaTokens(rule.patterns.EachCriteria())
  }

  /** The policy line for a rule, as a line of a file read with `each_line`. */
  function Render(rule: Rule): string {
    Join(RuleTokens(rule)) + "\n"
  }

  /**
   * A rule a policy line can express: no pattern holds whitespace, or `NUL`, which
   * `strip` would remove at the end of a line and `fnmatch` refuses anywhere.
   */
  predicate Writable(rule: Rule) {
    forall f :: rule.patterns.Get(f).Some? ==>
      NoSpace(rule.patterns.Get(f).value) && '\0' !in rule.patterns.Get(f).value
  }

  /** `field=pattern` is one token when the pattern has no whitespace. */
  lemma CriterionTokenIsWord(c: (Field, string))
    requires NoSpace(c.1) && '\0' !in c.1
    ensures IsWord(CriterionToken(c)) && '\0' !in CriterionToken(c)
  {
    var t := CriterionToken(c);
    var n := |FieldName(c.0)|;
    forall k | 0 <= k < |t| ensures !IsSpace(t[k]) && t[k] != '\0' {
      if k < n {
        assert t[k] == FieldName(c.0)[k];
      } else if k > n {
        assert t[k] == c.1[k - n - 1];
      }
    }
  }

  /** Every token of a writable rule's line is a word. */
  lemma RuleTokensAreWords(rule: Rule)
    requires Writable(rule)
    ensures forall i :: 0 <= i < |RuleTokens(rule)| ==>
      IsWord(RuleTokens(rule)[i]) && '\0' !in RuleTokens(rule)[i]
  {
    var cs := rule.patterns.EachCriteria();
    EachCriteriaExactly(rule.patterns);
    var ts := RuleTokens(rule);
    forall i | 0 <= i < |ts| ensures IsWord(ts[i]) && '\0' !in ts[i] {
      if i > 0 {
        assert ts[i] == CriterionToken(cs[i - 1]);
        CriterionTokenIsWord(cs[i - 1]);
      }
    }
  }

  /** The token for one field parses to that field's pattern. */
  lemma ParseCriterion(p: Patterns, f: Field, acc: Patterns)
    ensures ParseCriteria(CriteriaTokens(p.Criterion(f)), acc) ==
      Ok(if p.Get(f).Some? then acc.With(f, p.Get(f).value) else acc)
  {
    if p.Get(f).Some? {
      var v := p.Get(f).value;
      assert p.Criterion(f) == [(f, v)];
      var ts := CriteriaTokens(p.Criterion(f));
      assert ts == [FieldName(f) + "=" + v];
      assert '=' !in FieldName(f);
      SplitAtFirstEquals(FieldName(f), v);
      assert ParseField(FieldName(f)) == Some(f);
      assert ts[1..] == [];
    } else {
      assert p.Criterion(f) == [];
    }
  }

  /** Concatenated criteria give concatenated tokens. */
  lemma CriteriaTokensAppend(x: seq<(Field, string)>, y: seq<(Field, string)>)
    ensures CriteriaTokens(x + y) == CriteriaTokens(x) + CriteriaTokens(y)
  {
  }

  /** The criteria tokens of a rule's fields parse back to the rule's patterns. */
  lemma ParseEachCriteria(p: Patterns)
    ensures ParseCriteria(CriteriaTokens(p.EachCriteria()), NoPatterns) == Ok(p)
  {
    var u, r, f, b := p.Criterion(User), p.Criterion(Repo), p.Criterion(File), p.Criterion(Branch);
    assert p.EachCriteria() == ((u + r) + f) + b;
    CriteriaTokensAppend((u + r) + f, b);
    CriteriaTokensAppend(u + r, f);
    CriteriaTokensAppend(u, r);
    var a0 := NoPatterns;
    var a1 := Patterns(p.user, None, None, None);
    var a2 := Patterns(p.user, p.repo, None, None);
    var a3 := Patterns(p.user, p.repo, p.file, None);
    ParseCriterion(p, User, a0);
    ParseCriterion(p, Repo, a1);
    ParseCriterion(p, File, a2);
    ParseCriterion(p, Branch, a3);
    var tu, tr, tf, tb := CriteriaTokens(u), CriteriaTokens(r), CriteriaTokens(f), CriteriaTokens(b);
    ParseCriteriaAppend(tu, tr, a0);
    ParseCriteriaAppend(tu + tr, tf, a0);
    ParseCriteriaAppend(tu + tr + tf, tb, a0);
  }

  /** A level's name reads back as that level. */
  lemma ParseLevelName(l: Level)
    ensures ParseLevel(LevelName(l)) == Some(l)
  {
  }

  /** A writable rule's line is a rule line whose tokens are the rule's tokens. */
  lemma RenderedTokens(rule: Rule)
    requires Writable(rule)
    ensures !IsIgnored(Render(rule)) && Tokens(Render(rule)) == RuleTokens(rule)
  {
    RuleTokensAreWords(rule);
    var ts := RuleTokens(rule);
    assert '\0' !in ts[0] && '\0' !in ts[|ts| - 1];
    TokensOfLine(ts);
  }

  /** A writable rule's line parses back to the rule. */
  lemma RenderParses(rule: Rule)
    requires Writable(rule)
    ensures ParseLine(Render(rule)) == Ok(Some(rule))
  {
    var ts := RuleTokens(rule);
    RenderedTokens(rule);
    ParseLevelName(rule.level);
    assert ts[1..] == CriteriaTokens(rule.patterns.EachCriteria());
    ParseEachCriteria(rule.patterns);
  }

  /**
   * A rule's line with a longer run of whitespace after the level, as policy text
   * aligned in columns is written (`read  user=...`).
   */
  function RenderPadded(rule: Rule, pad: string): string {
    LevelName(rule.level) + " " + pad + Join(CriteriaTokens(rule.patterns.EachCriteria())) + "\n"
  }

  /** A word, a run of whitespace and more text, on a line of its own. */
  lemma TokensAfterRun(name: string, sep: string, rest: string)
    requires IsWord(name) && name[0] != '#' && name[0] != '\0'
    requires sep != [] && AllSpace(sep)
    requires rest != [] && !IsStripped(rest[|rest| - 1])
    ensures !IsIgnored(name + sep + rest + "\n")
    ensures Tokens(name + sep + rest + "\n") == [name] + Words(rest)
  {
    var text := name + sep + rest;
    assert text[0] == name[0];
    assert text[|text| - 1] == rest[|rest| - 1];
    StripLine(text);
    WordsSplitAtRun(name, sep, rest);
  }

  /** Words joined with a longer run of whitespace after the first still read back as the words. */
  lemma TokensOfPaddedLine(ws: seq<string>, pad: string)
    requires |ws| >= 2 && forall i :: 0 <= i < |ws| ==> IsWord(ws[i])
    requires ws[0] != [] && ws[0][0] != '#' && ws[0][0] != '\0'
    requires ws[|ws| - 1] != [] && ws[|ws| - 1][|ws[|ws| - 1]| - 1] != '\0'
    requires AllSpace(pad)
    ensures var line := ws[0] + " " + pad + Join(ws[1..]) + "\n";
      !IsIgnored(line) && Tokens(line) == ws
  {
    var tail := ws[1..];
    assert forall i :: 0 <= i < |tail| ==> tail[i] == ws[i + 1];
    assert tail[|tail| - 1] == ws[|ws| - 1];
    var rest := Join(tail);
    JoinEnds(tail);
    WordsOfJoin(tail);
    var sep := " " + pad;
    assert AllSpace(sep) by {
      forall i | 0 <= i < |sep| ensures IsSpace(sep[i]) {
        if i > 0 {
          assert sep[i] == pad[i - 1];
        }
      }
    }
    assert ws[0] + " " + pad + Join(ws[1..]) + "\n" == ws[0] + sep + rest + "\n";
    TokensAfterRun(ws[0], sep, rest);
    assert [ws[0]] + tail == ws;
  }

  /** A padded line of a writable rule with patterns holds the rule's tokens. */
  lemma PaddedTokens(rule: Rule, pad: string)
    requires Writable(rule) && AllSpace(pad) && rule.patterns.EachCriteria() != []
    ensures !IsIgnored(RenderPadded(rule, pad)) && Tokens(RenderPadded(rule, pad)) == RuleTokens(rule)
  {
    var ts := RuleTokens(rule);
    RuleTokensAreWords(rule);
    assert ts[0] == LevelName(rule.level) && ts[1..] == CriteriaTokens(rule.patterns.EachCriteria());
    assert '\0' !in ts[0] && '\0' !in ts[|ts| - 1];
    TokensOfPaddedLine(ts, pad);
  }

  /** Two rule lines with the same tokens parse alike. */
  lemma SameTokensSameRule(a: string, b: string)
    requires !IsIgnored(a) && !IsIgnored(b) && Tokens(a) == Tokens(b)
    ensures ParseLine(a) == ParseLine(b)
  {
  }

  /** A padded line of a writable rule with patterns parses back to the rule. */
  lemma PaddedRenderParses(rule: Rule, pad: string)
    requires Writable(rule) && AllSpace(pad) && rule.patterns.EachCriteria() != []
    ensures ParseLine(RenderPadded(rule, pad)) == Ok(Some(rule))
  {
    PaddedTokens(rule, pad);
    RenderedTokens(rule);
    RenderParses(rule);
    SameTokensSameRule(RenderPadded(rule, pad), Render(rule));
  }

  /** The policy text for a sequence of rules, one line each. */
  function RenderAll(rules: seq<Rule>): (lines: seq<string>)
    ensures |lines| == |rules|
    ensures forall i :: 0 <= i < |rules| ==> lines[i] == Render(rules[i])
  {
    seq(|rules|, i requires 0 <= i < |rules| => Render(rules[i]))
  }

  // ---------------------------------------------------------------------------
  // Ruleset.build and Ruleset.new
  // ---------------------------------------------------------------------------

  /** The elements `step` does not skip, in order. */
  function Kept<X, T, E>(xs: seq<X>, step: X -> Result<Option<T>, E>): seq<X> {
    if xs == [] then []
    else if step(xs[0]).Ok? && step(xs[0]).value.None? then Kept(xs[1..], step)
    else [xs[0]] + Kept(xs[1..], step)
  }

  /** `Gather` succeeds exactly when `step` succeeds on every element. */
  lemma {:induction false} GatherSucceeds<X, T, E>(xs: seq<X>, step: X -> Result<Option<T>, E>)
    ensures Gather(xs, step).Ok? <==> forall i :: 0 <= i < |xs| ==> step(xs[i]).Ok?
    decreases |xs|
  {
    if xs != [] {
      assert forall i :: 0 < i < |xs| ==> xs[i] == xs[1..][i - 1];
      GatherSucceeds(xs[1..], step);
    }
  }

  /** `Gather` keeps one value per element that is not skipped, each `step`'s own. */
  lemma {:induction false} GatherKeeps<X, T, E>(xs: seq<X>, step: X -> Result<Option<T>, E>)
    requires Gather(xs, step).Ok?
    ensures |Gather(xs, step).value| == |Kept(xs, step)|
    ensures forall k :: 0 <= k < |Kept(xs, step)| ==>
      step(Kept(xs, step)[k]).Ok? && step(Kept(xs, step)[k]).value == Some(Gather(xs, step).value[k])
    decreases |xs|
  {
    if xs != [] {
      GatherKeeps(xs[1..], step);
    }
  }

  /** A failing `Gather` reports the error of the first element `step` fails on. */
  lemma {:induction false} GatherFirstError<X, T, E>(xs: seq<X>, step: X -> Result<Option<T>, E>)
    requires Gather(xs, step).Err?
    ensures exists i :: 0 <= i < |xs| && step(xs[i]).Err? && step(xs[i]).error == Gather(xs, step).error &&
                        forall j :: 0 <= j < i ==> step(xs[j]).Ok?
    decreases |xs|
  {
    if step(xs[0]).Ok? {
      GatherFirstError(xs[1..], step);
      if step(xs[0]).value.Some? {
        GatherSucceeds(xs[1..], step);
      }
      var i :| 0 <= i < |xs[1..]| && step(xs[1..][i]).Err? &&
               step(xs[1..][i]).error == Gather(xs[1..], step).error &&
               forall j :: 0 <= j < i ==> step(xs[1..][j]).Ok?;
      assert xs[i + 1] == xs[1..][i];
      forall j | 0 <= j < i + 1 ensures step(xs[j]).Ok? {
        if j > 0 {
          assert xs[j] == xs[1..][j - 1];
        }
      }
    }
  }

  /** `Gather` over two blocks one after the other is `Gather` over them together. */
  lemma {:induction false} GatherAppend<X, T, E>(a: seq<X>, b: seq<X>, step: X -> Result<Option<T>, E>)
    ensures Gather(a + b, step) ==
      match Gather(a, step)
      case Err(e) => Err(e)
      case Ok(x) =>
        match Gather(b, step)
        case Err(e) => Err(e)
        case Ok(y) => Ok(x + y)
    decreases |a|
  {
    if a == [] {
      assert a + b == b;
      if Gather(b, step).Ok? {
        assert [] + Gather(b, step).value == Gather(b, step).value;
      }
    } else {
      assert (a + b)[0] == a[0] && (a + b)[1..] == a[1..] + b;
      GatherAppend(a[1..], b, step);
      if step(a[0]).Ok? && step(a[0]).value.Some? && Gather(a[1..], step).Ok? && Gather(b, step).Ok? {
        var x := Gather(a[1..], step).value;
        var y := Gather(b, step).value;
        assert [step(a[0]).value.value] + (x + y) == ([step(a[0]).value.value] + x) + y;
      }
    }
  }

  /** The lines `build` keeps are the rule lines. */
  lemma {:induction false} KeptLinesAreRuleLines(lines: seq<string>)
    ensures Kept(lines, ParseLine) == RuleLines(lines)
    decreases |lines|
  {
    if lines != [] {
      KeptLinesAreRuleLines(lines[1..]);
    }
  }

  /** `build` succeeds exactly when every line parses. */
  lemma BuildSucceeds(lines: seq<string>)
    ensures Build(lines).Ok? <==> forall i :: 0 <= i < |lines| ==> ParseLine(lines[i]).Ok?
  {
    GatherSucceeds(lines, ParseLine);
  }

  /** `build` keeps one rule per rule line, in line order, each parsed from its line. */
  lemma BuildRules(lines: seq<string>)
    requires Build(lines).Ok?
    ensures |Build(lines).value| == |RuleLines(lines)|
    ensures forall k :: 0 <= k < |RuleLines(lines)| ==>
      ParseLine(RuleLines(lines)[k]) == Ok(Some(Build(lines).value[k]))
  {
    GatherKeeps(lines, ParseLine);
    KeptLinesAreRuleLines(lines);
  }

  /** A failing `build` reports the error of the first line that does not parse. */
  lemma BuildFirstError(lines: seq<string>)
    requires Build(lines).Err?
    ensures exists i :: 0 <= i < |lines| && ParseLine(lines[i]) == Err(Build(lines).error) &&
                        forall j :: 0 <= j < i ==> ParseLine(lines[j]).Ok?
  {
    GatherFirstError(lines, ParseLine);
  }

  /** Building two blocks of lines one after the other is building them together. */
  lemma BuildAppend(a: seq<string>, b: seq<string>)
    ensures Build(a + b) ==
      match Build(a)
      case Err(e) => Err(e)
      case Ok(x) =>
        match Build(b)
        case Err(e) => Err(e)
        case Ok(y) => Ok(x + y)
  {
    GatherAppend(a, b, ParseLine);
  }

  /** A blank or comment line adds no rule wherever it stands. */
  lemma IgnoredLineAddsNoRule(a: seq<string>, line: string, b: seq<string>)
    requires IsIgnored(line)
    ensures Build(a + [line] + b) == Build(a + b)
  {
    assert a + [line] + b == a + ([line] + b);
    GatherAppend(a, [line] + b, ParseLine);
    GatherAppend(a, b, ParseLine);
    assert ([line] + b)[0] == line && ([line] + b)[1..] == b;
  }

  /** `Gather` keeps every element's value when `step` yields one for each. */
  lemma {:induction false} GatherEvery<X, T, E>(xs: seq<X>, ys: seq<T>, step: X -> Result<Option<T>, E>)
    requires |xs| == |ys|
    requires forall i :: 0 <= i < |xs| ==> step(xs[i]).Ok? && step(xs[i]).value == Some(ys[i])
    ensures Gather(xs, step) == Ok(ys)
    decreases |xs|
  {
    if xs != [] {
      assert forall i :: 0 <= i < |xs[1..]| ==> xs[1..][i] == xs[i + 1] && ys[1..][i] == ys[i + 1];
      GatherEvery(xs[1..], ys[1..], step);
      assert [ys[0]] + ys[1..] == ys;
    }
  }

  /** The text of writable rules builds back into the same rules. */
  lemma BuildRendered(rules: seq<Rule>)
    requires forall i :: 0 <= i < |rules| ==> Writable(rules[i])
    ensures Build(RenderAll(rules)) == Ok(rules)
  {
    var lines := RenderAll(rules);
    forall i | 0 <= i < |lines| ensures ParseLine(lines[i]) == Ok(Some(rules[i])) {
      RenderParses(rules[i]);
    }
    GatherEvery(lines, rules, ParseLine);
  }

  /** `Ruleset.new` keeps its arguments' rules in argument order. */
  lemma {:induction false} NewAppend(parts: seq<seq<Rule>>, more: seq<Rule>)
    ensures New(parts + [more]) == New(parts) + more
    decreases |parts|
  {
    if parts == [] {
      assert [] + [more] == [more];
      assert New([more]) == more + New([]);
    } else {
      assert (parts + [more])[0] == parts[0] && (parts + [more])[1..] == parts[1..] + [more];
      NewAppend(parts[1..], more);
    }
  }

  /** `build` hands `new` a single array, so the ruleset holds exactly the built rules. */
  lemma NewOfOne(rules: seq<Rule>)
    ensures New([rules]) == rules
  {
    assert New([rules]) == rules + New([]);
  }

  // ---------------------------------------------------------------------------
  // allow
  // ---------------------------------------------------------------------------

  /** Blocks that agree on every rule give the same `find` result. */
  lemma {:induction false} FindAgrees<T>(xs: seq<T>, p: T -> bool, q: T -> bool)
    requires forall j :: 0 <= j < |xs| ==> p(xs[j]) == q(xs[j])
    ensures Find(xs, p) == Find(xs, q)
    decreases |xs|
  {
    if xs != [] && !p(xs[0]) {
      assert forall j :: 0 <= j < |xs[1..]| ==> xs[1..][j] == xs[j + 1];
      FindAgrees(xs[1..], p, q);
    }
  }

  /** Requests every rule matches alike get the same verdict at every level. */
  lemma SameMatchesSameVerdict(rules: seq<Rule>, level: string, r1: Request, r2: Request)
    requires forall j :: 0 <= j < |rules| ==>
      rules[j].Matches(ResolveAliases(r1)) == rules[j].Matches(ResolveAliases(r2))
    ensures Allow(rules, level, r1) == Allow(rules, level, r2)
  {
    var c1, c2 := ResolveAliases(r1), ResolveAliases(r2);
    FindAgrees(rules, (rule: Rule) => rule.Matches(c1), (rule: Rule) => rule.Matches(c2));
    assert FirstMatch(rules, c1) == FirstMatch(rules, c2);
  }

  /** The verdict is the first matching rule's: deny refuses, otherwise the ranks decide. */
  lemma FirstMatchDecides(rules: seq<Rule>, level: string, request: Request, i: nat)
    requires IsFirstMatch(rules, ResolveAliases(request), i)
    ensures Allow(rules, level, request) ==
      (ParseLevel(level).Some? && Grants(rules[i], ParseLevel(level).value))
  {
    FirstMatchIsUnique(rules, ResolveAliases(request), i);
  }

  /** With no matching rule the answer is no. */
  lemma NoMatchRefuses(rules: seq<Rule>, level: string, request: Request)
    requires forall j :: 0 <= j < |rules| ==> !rules[j].Matches(ResolveAliases(request))
    ensures !Allow(rules, level, request)
  {
  }

  /** An empty ruleset refuses everything. */
  lemma EmptyRulesetRefuses(level: string, request: Request)
    ensures !Allow([], level, request)
  {
  }

  /**
   * The first-match scan as a recursion over the ruleset: the first rule that matches
   * `criteria` decides, and when none does the answer is no.
   */
  function Scan(rules: seq<Rule>, criteria: Request, requested: Level): bool
    decreases |rules|
  {
    if rules == [] then false
    else if rules[0].Matches(criteria) then Grants(rules[0], requested)
    else Scan(rules[1..], criteria, requested)
  }

  /** The recursive scan decides by the rule `allow`'s `find` returns. */
  lemma {:induction false} ScanIsFind(rules: seq<Rule>, criteria: Request, requested: Level)
    ensures Scan(rules, criteria, requested) <==>
      var found := Find(rules, MatchesOf(criteria));
      found.Some? && found.value < |rules| && Grants(rules[found.value], requested)
    decreases |rules|
  {
    if rules != [] {
      var m := MatchesOf(criteria);
      assert m(rules[0]) == rules[0].Matches(criteria);
      if !m(rules[0]) {
        ScanIsFind(rules[1..], criteria, requested);
        var rest := Find(rules[1..], m);
        assert Find(rules, m) == if rest.None? then None else Some(rest.value + 1);
        if rest.Some? && rest.value < |rules[1..]| {
          assert rules[rest.value + 1] == rules[1..][rest.value];
        }
      }
    }
  }

  /** `allow` for a level name is the recursive scan over the resolved request. */
  lemma AllowIsScan(rules: seq<Rule>, level: Level, request: Request)
    ensures Allow(rules, LevelName(level), request) == Scan(rules, ResolveAliases(request), level)
  {
    ParseLevelName(level);
    ScanIsFind(rules, ResolveAliases(request), level);
  }

  /** Rules after the first match have no effect. */
  lemma LaterRulesHaveNoEffect(rules: seq<Rule>, more: seq<Rule>, level: string, request: Request)
    requires FirstMatch(rules, ResolveAliases(request)).Some?
    ensures Allow(rules + more, level, request) == Allow(rules, level, request)
  {
    var criteria := ResolveAliases(request);
    var i := FirstMatch(rules, criteria).value;
    assert forall j :: 0 <= j <= i ==> (rules + more)[j] == rules[j];
    assert IsFirstMatch(rules + more, criteria, i);
    FirstMatchDecides(rules, level, request, i);
    FirstMatchDecides(rules + more, level, request, i);
  }

  /** An element `find` rejects only shifts the positions after it. */
  lemma {:induction false} FindSkips<T>(a: seq<T>, x: T, b: seq<T>, p: T -> bool)
    requires !p(x)
    ensures Find(a + [x] + b, p) ==
      match Find(a + b, p)
      case None => None
      case Some(i) => Some(if i < |a| then i else i + 1)
    decreases |a|
  {
    if a == [] {
      assert a + [x] + b == [x] + b && ([x] + b)[1..] == b && a + b == b;
    } else {
      assert (a + [x] + b)[0] == a[0] && (a + [x] + b)[1..] == a[1..] + [x] + b;
      assert (a + b)[0] == a[0] && (a + b)[1..] == a[1..] + b;
      FindSkips(a[1..], x, b, p);
    }
  }

  /** With an element `find` rejects left out, `find` finds the same element. */
  lemma FindsSameWithout<T>(a: seq<T>, x: T, b: seq<T>, p: T -> bool)
    requires !p(x)
    ensures Find(a + [x] + b, p).Some? == Find(a + b, p).Some?
    ensures Find(a + b, p).Some? ==>
      Find(a + b, p).value < |a + b| && Find(a + [x] + b, p).value < |a + [x] + b| &&
      (a + [x] + b)[Find(a + [x] + b, p).value] == (a + b)[Find(a + b, p).value]
  {
    FindSkips(a, x, b, p);
    FindIsFirst(a + b, p);
  }

  /** A rule that does not match the request has no effect wherever it stands. */
  lemma NonMatchingRuleHasNoEffect(a: seq<Rule>, rule: Rule, b: seq<Rule>, level: string, request: Request)
    requires !rule.Matches(ResolveAliases(request))
    ensures Allow(a + [rule] + b, level, request) == Allow(a + b, level, request)
  {
    FindsSameWithout(a, rule, b, MatchesOf(ResolveAliases(request)));
  }

  /** A rule that sets no field ends the scan: it decides every request that reaches it. */
  lemma UnconstrainedRuleEndsScan(a: seq<Rule>, granted: Level, b: seq<Rule>, level: string, request: Request)
    requires forall j :: 0 <= j < |a| ==> !a[j].Matches(ResolveAliases(request))
    ensures Allow(a + [Rule(granted, NoPatterns)] + b, level, request) ==
      (ParseLevel(level).Some? && Grants(Rule(granted, NoPatterns), ParseLevel(level).value))
  {
    var rules := a + [Rule(granted, NoPatterns)] + b;
    assert forall j :: 0 <= j < |a| ==> rules[j] == a[j];
    assert rules[|a|] == Rule(granted, NoPatterns);
    UnconstrainedRuleMatchesAll(granted, ResolveAliases(request));
    assert IsFirstMatch(rules, ResolveAliases(request), |a|);
    FirstMatchDecides(rules, level, request, |a|);
  }

  /** A `deny` rule as the first match refuses every level. */
  lemma DenyRefusesEveryLevel(rules: seq<Rule>, request: Request, i: nat)
    requires IsFirstMatch(rules, ResolveAliases(request), i) && rules[i].IsDeny()
    ensures forall level :: !Allow(rules, level, request)
  {
    forall level ensures !Allow(rules, level, request) {
      FirstMatchDecides(rules, level, request, i);
    }
  }

  /**
   * Privilege monotonicity: when a non-deny rule is the first match, a level is allowed
   * exactly when its rank is at least the rule's.
   */
  lemma GrantIsRankComparison(rules: seq<Rule>, request: Request, i: nat, l: Level)
    requires IsFirstMatch(rules, ResolveAliases(request), i) && !rules[i].IsDeny()
    ensures Allow(rules, LevelName(l), request) <==> Rank(l) >= Rank(rules[i].level)
  {
    FirstMatchDecides(rules, LevelName(l), request, i);
    assert ParseLevel(LevelName(l)) == Some(l);
  }

  /** A request that is allowed at one level is allowed at every weaker level. */
  lemma AllowIsDownwardClosed(rules: seq<Rule>, request: Request, strong: Level, weak: Level)
    requires Allow(rules, LevelName(strong), request)
    requires Rank(strong) <= Rank(weak)
    ensures Allow(rules, LevelName(weak), request)
  {
    assert ParseLevel(LevelName(strong)) == Some(strong);
    assert ParseLevel(LevelName(weak)) == Some(weak);
    var i :| IsFirstMatch(rules, ResolveAliases(request), i) && Grants(rules[i], strong);
    FirstMatchDecides(rules, LevelName(weak), request, i);
  }

  /** A `write` grant allows `write` and `read` and refuses `publish` and `init`. */
  lemma WriteGrant(rules: seq<Rule>, request: Request, i: nat)
    requires IsFirstMatch(rules, ResolveAliases(request), i) && rules[i].level == Write
    ensures Allow(rules, "write", request) && Allow(rules, "read", request)
    ensures !Allow(rules, "publish", request) && !Allow(rules, "init", request)
  {
    GrantIsRankComparison(rules, request, i, Write);
    GrantIsRankComparison(rules, request, i, Read);
    GrantIsRankComparison(rules, request, i, Publish);
    GrantIsRankComparison(rules, request, i, Init);
  }

  /**
   * `deny` is the last of `LEVELS`, so a request may ask for it: it is allowed whenever
   * the first matching rule is not a deny rule.
   */
  lemma RequestingDenyLevel(rules: seq<Rule>, request: Request)
    ensures Allow(rules, "deny", request) <==>
      exists i :: IsFirstMatch(rules, ResolveAliases(request), i) && !rules[i].IsDeny()
  {
    assert ParseLevel("deny") == Some(Deny);
  }

  /** A requested level outside `LEVELS` is refused whatever the rules say. */
  lemma UnknownLevelRefused(rules: seq<Rule>, level: string, request: Request)
    requires forall l :: LevelName(l) != level
    ensures !Allow(rules, level, request)
  {
    assert ParseLevel(level).None?;
  }

  /** Resolving the aliases changes nothing that was already resolved. */
  lemma ResolveAliasesIdempotent(request: Request)
    ensures ResolveAliases(ResolveAliases(request)) == ResolveAliases(request)
  {
  }

  /**
   * Alias equivalence: `to:` and `on:` give the same verdict as `user:` and `repo:`
   * with the same values.
   */
  lemma AliasEquivalence(rules: seq<Rule>, level: string, rest: Request, user: string, repo: string)
    requires forall k :: k in rest ==> k !in AliasKeys
    ensures Allow(rules, level, rest["to" := user]["on" := repo]) ==
            Allow(rules, level, rest["user" := user]["repo" := repo])
  {
    var aliased := rest["to" := user]["on" := repo];
    var plain := rest["user" := user]["repo" := repo];
    var ra, rp := ResolveAliases(aliased), ResolveAliases(plain);
    forall k ensures (k in ra <==> k in rp) && (k in ra ==> ra[k] == rp[k]) {
      if k !in AliasKeys {
        assert k in aliased <==> k in rest;
        assert k in plain <==> k in rest;
      }
    }
    assert ra == rp;
  }

  /** `to:` on its own gives the same verdict as `user:` with the same value. */
  lemma ToIsUser(rules: seq<Rule>, level: string, rest: Request, user: string)
    requires "to" !in rest && "user" !in rest
    ensures Allow(rules, level, rest["to" := user]) == Allow(rules, level, rest["user" := user])
  {
    var aliased, plain := rest["to" := user], rest["user" := user];
    var ra, rp := ResolveAliases(aliased), ResolveAliases(plain);
    forall k ensures (k in ra <==> k in rp) && (k in ra ==> ra[k] == rp[k]) {
      if k !in AliasKeys {
        assert k in aliased <==> k in rest;
        assert k in plain <==> k in rest;
      }
    }
    assert ra == rp;
  }

  /** `on:` on its own gives the same verdict as `repo:` with the same value. */
  lemma OnIsRepo(rules: seq<Rule>, level: string, rest: Request, repo: string)
    requires "on" !in rest && "repo" !in rest
    ensures Allow(rules, level, rest["on" := repo]) == Allow(rules, level, rest["repo" := repo])
  {
    var aliased, plain := rest["on" := repo], rest["repo" := repo];
    var ra, rp := ResolveAliases(aliased), ResolveAliases(plain);
    forall k ensures (k in ra <==> k in rp) && (k in ra ==> ra[k] == rp[k]) {
      if k !in AliasKeys {
        assert k in aliased <==> k in rest;
        assert k in plain <==> k in rest;
      }
    }
    assert ra == rp;
  }

  /** When a request gives both `to:` and `user:`, `to:` wins. */
  lemma ToOverridesUser(rules: seq<Rule>, level: string, request: Request, user: string)
    requires "to" in request
    ensures Allow(rules, level, request["user" := user]) == Allow(rules, level, request)
  {
    var r1, r2 := ResolveAliases(request["user" := user]), ResolveAliases(request);
    forall k ensures (k in r1 <==> k in r2) && (k in r1 ==> r1[k] == r2[k]) {
      if k !in AliasKeys {
        assert k in request["user" := user] <==> k in request;
      }
    }
    assert r1 == r2;
  }

  /** Keywords other than the criteria fields and their aliases do not affect the verdict. */
  lemma OtherKeysIgnored(rules: seq<Rule>, level: string, request: Request, key: string, value: string)
    requires key !in AliasKeys && forall f :: FieldName(f) != key
    ensures Allow(rules, level, request[key := value]) == Allow(rules, level, request)
  {
    var r1, r2 := ResolveAliases(request[key := value]), ResolveAliases(request);
    forall f ensures (FieldName(f) in r1 <==> FieldName(f) in r2) &&
                     (FieldName(f) in r1 ==> r1[FieldName(f)] == r2[FieldName(f)]) {
      if FieldName(f) !in AliasKeys {
        assert FieldName(f) in request[key := value] <==> FieldName(f) in request;
      } else {
        assert f == User || f == Repo;
      }
    }
    forall j | 0 <= j < |rules| ensures rules[j].Matches(r1) == rules[j].Matches(r2) {
      MatchesReadsOnlyFields(rules[j], r1, r2);
    }
    SameMatchesSameVerdict(rules, level, request[key := value], request);
  }
}
