/**
 * Shell-style glob matching as Ruby's `File.fnmatch(pattern, value, File::FNM_EXTGLOB)`
 * performs it: `{a,b}` alternation is expanded first, then each alternative is matched
 * against the whole value with `*`, `?` and `[...]`. Only FNM_EXTGLOB is set, so
 *  - `*` also matches `/` (no FNM_PATHNAME), and `**` is two `*`s;
 *  - a value that starts with `.` only matches an alternative that starts with `.`
 *    (no FNM_DOTMATCH);
 *  - matching is case-sensitive (no FNM_CASEFOLD).
 */
module Glob {
  import opened Wrappers

  // ---------------------------------------------------------------------------
  // Brace expansion
  // ---------------------------------------------------------------------------

  /** The first position of `c` in `p`. */
  function IndexOf(p: seq<char>, c: char): (r: Option<nat>)
    ensures r.Some? ==> r.value < |p| && p[r.value] == c
    ensures r.Some? ==> forall j :: 0 <= j < r.value ==> p[j] != c
    ensures r.None? <==> c !in p
  {
    if p == [] then None
    else if p[0] == c then Some(0)
    else
      match IndexOf(p[1..], c)
      case None => None
      case Some(i) =>
        Some(i + 1)
  }

  /**
   * Scanning `p` from position `i` while `depth` braces are open, the position of the
   * `}` that closes the outermost one; None when the braces are never closed.
   */
  function CloseBrace(p: seq<char>, i: nat, depth: nat): (r: Option<nat>)
    requires i <= |p| && depth >= 1
    ensures r.Some? ==> i <= r.value < |p| && p[r.value] == '}'
    decreases |p| - i
  {
    if i == |p| then None
    else if p[i] == '{' then CloseBrace(p, i + 1, depth + 1)
    else if p[i] == '}' then
      if depth == 1 then Some(i) else CloseBrace(p, i + 1, depth - 1)
    else CloseBrace(p, i + 1, depth)
  }

  /** The length of the longest of `alts`. */
  function LongestLength(alts: seq<seq<char>>): (n: nat)
    ensures alts != [] ==> |alts[0]| <= n && LongestLength(alts[1..]) <= n
  {
    if alts == [] then 0
    else
      var rest := LongestLength(alts[1..]);
      if |alts[0]| > rest then |alts[0]| else rest
  }

  /** The body of a brace group split at the commas that are not inside nested braces. */
  function Alternatives(body: seq<char>, depth: int): (r: seq<seq<char>>)
    ensures |r| >= 1
    ensures LongestLength(r) <= |body|
  {
    if body == [] then [[]]
    else if body[0] == ',' && depth == 0 then
      var rest := Alternatives(body[1..], 0);
      assert ([[]] + rest)[1..] == rest;
      [[]] + rest
    else
      var inner := if body[0] == '{' then depth + 1
                   else if body[0] == '}' then depth - 1
                   else depth;
      var rest := Alternatives(body[1..], inner);
      var r := [[body[0]] + rest[0]] + rest[1..];
      assert r[1..] == rest[1..];
      r
  }

  /** Where the first brace group of a pattern is, if it has one. */
  datatype Braces =
    | NoBrace                                          // no `{` at all
    | Unclosed                                         // the first `{` is never closed
    | Group(pre: seq<char>, body: seq<char>, post: seq<char>)  // pre { body } post

  /** The first `{` of `p` and the `}` that closes it, nested groups counted. */
  function FindGroup(p: seq<char>): (r: Braces)
    ensures r.NoBrace? <==> '{' !in p
    ensures r.Group? ==> |r.pre| + |r.body| + |r.post| < |p|
  {
    match IndexOf(p, '{')
    case None => NoBrace
    case Some(lb) =>
      match CloseBrace(p, lb + 1, 1)
      case None => Unclosed
      case Some(rb) =>
        Group(p[..lb], p[lb + 1..rb], p[rb + 1..])
  }

  /**
   * The brace-free patterns `p` stands for, in the order Ruby tries them. The first
   * `{` and the `}` that closes it are replaced by each of their alternatives in turn,
   * and every result is expanded again. A `{` that is never closed expands to nothing,
   * so such a pattern matches no value.
   */
  function Expand(p: seq<char>): seq<seq<char>>
    decreases |p|, 1, 0
  {
    match FindGroup(p)
    case NoBrace => [p]
    case Unclosed => []
    case Group(pre, body, post) => ExpandEach(pre, Alternatives(body, 0), post, |p|)
  }

  /** The expansions of `pre + a + post` for each alternative `a`, concatenated in order. */
  function ExpandEach(pre: seq<char>, alts: seq<seq<char>>, post: seq<char>, bound: nat): seq<seq<char>>
    requires |pre| + LongestLength(alts) + |post| < bound
    decreases bound, 0, |alts|
  {
    if alts == [] then []
    else Expand(pre + alts[0] + post) + ExpandEach(pre, alts[1..], post, bound)
  }

  /** Expansion removes every `{`: each alternative it yields is brace-free. */
  lemma {:induction false} ExpansionsAreBraceFree(p: seq<char>)
    ensures forall a :: a in Expand(p) ==> '{' !in a
    decreases |p|, 1, 0
  {
    match FindGroup(p)
    case NoBrace =>
    case Unclosed =>
    case Group(pre, body, post) => ExpansionsOfEachAreBraceFree(pre, Alternatives(body, 0), post, |p|);
  }

  lemma {:induction false} ExpansionsOfEachAreBraceFree(pre: seq<char>, alts: seq<seq<char>>, post: seq<char>, bound: nat)
    requires |pre| + LongestLength(alts) + |post| < bound
    ensures forall a :: a in ExpandEach(pre, alts, post, bound) ==> '{' !in a
    decreases bound, 0, |alts|
  {
    if alts != [] {
      ExpansionsAreBraceFree(pre + alts[0] + post);
      ExpansionsOfEachAreBraceFree(pre, alts[1..], post, bound);
    }
  }

  // ---------------------------------------------------------------------------
  // Tokens of a brace-free pattern
  // ---------------------------------------------------------------------------

  datatype ClassItem = Single(c: char) | Range(lo: char, hi: char)

  datatype Token =
    | Literal(c: char)
    | AnyChar                                       // ?
    | AnyString                                     // *
    | Class(negated: bool, items: seq<ClassItem>)   // [...], [!...] or [^...]
    | Unterminated                                  // a [ with no closing ]

  /**
   * Ruby compares a range's ends byte-wise first and by code point second, so
   * `[z-a]` still matches `z` and `a`.
   */
  predicate ItemMatches(item: ClassItem, c: char) {
    match item
    case Single(x) => c == x
    case Range(lo, hi) => c == lo || c == hi || (lo <= c && c <= hi)
  }

  predicate AnyItem(items: seq<ClassItem>, c: char) {
    items != [] && (ItemMatches(items[0], c) || AnyItem(items[1..], c))
  }
  predicate ClassMatches(negated: bool, items: seq<ClassItem>, c: char) {
    AnyItem(items, c) != negated
  }

  /**
   * The items of a character class, read from just after `[` (and after `!` or `^`),
   * with what follows its closing `]`. A `]` straight away closes an empty class; a
   * `-` between two characters makes a range unless the `]` follows it.
   */
  function ClassItems(q: seq<char>): (r: Option<(seq<ClassItem>, seq<char>)>)
    ensures r.Some? ==> |r.value.1| < |q|
  {
    if q == [] then None
    else if q[0] == ']' then Some(([], q[1..]))
    else if |q| >= 2 && q[1] == '-' && !(|q| >= 3 && q[2] == ']') then
      if |q| < 3 then None
      else
        (match ClassItems(q[3..])
         case None => None
         case Some(parsed) => Some(([Range(q[0], q[2])] + parsed.0, parsed.1)))
    else
      match ClassItems(q[1..])
      case None => None
      case Some(parsed) => Some(([Single(q[0])] + parsed.0, parsed.1))
  }

  /** A character class read from just after `[`, with the rest of the pattern. */
  function ParseClass(q: seq<char>): (r: Option<(Token, seq<char>)>)
    ensures r.Some? ==> r.value.0.Class? && |r.value.1| < |q|
  {
    var negated := q != [] && (q[0] == '!' || q[0] == '^');
    match ClassItems(if negated then q[1..] else q)
    case None => None
    case Some(parsed) => Some((Class(negated, parsed.0), parsed.1))
  }

  /** The tokens of a brace-free pattern. */
  function Tokenize(p: seq<char>): seq<Token>
    decreases |p|
  {
    if p == [] then []
    else if p[0] == '*' then [AnyString] + Tokenize(p[1..])
    else if p[0] == '?' then [AnyChar] + Tokenize(p[1..])
    else if p[0] == '[' then
      (match ParseClass(p[1..])
       case None => [Unterminated]
       case Some(parsed) => [parsed.0] + Tokenize(parsed.1))
    else [Literal(p[0])] + Tokenize(p[1..])
  }

  // ---------------------------------------------------------------------------
  // Matching
  // ---------------------------------------------------------------------------

  /** Whether a token other than `*` accepts the character `c`. */
  predicate Accepts(t: Token, c: char) {
    match t
    case Literal(x) => c == x
    case AnyChar => true
    case AnyString => true
    case Class(negated, items) => ClassMatches(negated, items, c)
    case Unterminated => false
  }

  /** Whether the tokens `ts` describe the whole of `s`. */
  predicate MatchTokens(ts: seq<Token>, s: seq<char>)
    decreases |ts|, |s|
  {
    if ts == [] then s == []
    else if ts[0] == AnyString then
      MatchTokens(ts[1..], s) || (s != [] && MatchTokens(ts, s[1..]))
    else
      s != [] && Accepts(ts[0], s[0]) && MatchTokens(ts[1..], s[1..])
  }

  /** Without FNM_DOTMATCH a leading `.` of the value must be matched by a literal `.`. */
  predicate LeadingPeriodOk(p: seq<char>, s: seq<char>) {
    !(s != [] && s[0] == '.' && (p == [] || p[0] != '.'))
  }

  predicate MatchAlternative(p: seq<char>, s: seq<char>) {
    LeadingPeriodOk(p, s) && MatchTokens(Tokenize(p), s)
  }

  /** Whether one of `alts` matches `s`; Ruby stops at the first that does. */
  predicate AnyAlternative(alts: seq<seq<char>>, s: seq<char>) {
    alts != [] && (MatchAlternative(alts[0], s) || AnyAlternative(alts[1..], s))
  }

  /** `File.fnmatch(pattern, s, File::FNM_EXTGLOB)`. */
  predicate FnMatch(pattern: seq<char>, s: seq<char>) {
    AnyAlternative(Expand(pattern), s)
  }

  // ---------------------------------------------------------------------------
  // Properties
  // ---------------------------------------------------------------------------

  /** A pattern character that `Tokenize` or `Expand` treats specially. */
  predicate IsSpecial(c: char) {
    c == '*' || c == '?' || c == '[' || c == '{'
  }

  predicate IsLiteralText(w: seq<char>) {
    forall i :: 0 <= i < |w| ==> !IsSpecial(w[i])
  }

  function LiteralTokens(w: seq<char>): (r: seq<Token>)
    ensures |r| == |w|
    ensures forall i :: 0 <= i < |w| ==> r[i] == Literal(w[i])
  {
    if w == [] then [] else [Literal(w[0])] + LiteralTokens(w[1..])
  }

  lemma LiteralTextIsBraceFree(w: seq<char>)
    requires IsLiteralText(w)
    ensures '{' !in w && '[' !in w
  {
    forall i | 0 <= i < |w| ensures w[i] != '{' && w[i] != '[' {
      assert !IsSpecial(w[i]);
    }
  }

  /** Text without special characters tokenizes into one literal per character. */
  lemma {:induction false} TokenizeLiteralText(w: seq<char>, q: seq<char>)
    requires IsLiteralText(w)
    ensures Tokenize(w + q) == LiteralTokens(w) + Tokenize(q)
    decreases |w|
  {
    if w != [] {
      assert !IsSpecial(w[0]) && (w + q)[0] == w[0];
      assert (w + q)[1..] == w[1..] + q;
      assert IsLiteralText(w[1..]) by {
        forall i | 0 <= i < |w[1..]| ensures !IsSpecial(w[1..][i]) { assert w[1..][i] == w[i + 1]; }
      }
      var p := w + q;
      assert p != [] && !IsSpecial(p[0]);
      assert Tokenize(p) == [Literal(p[0])] + Tokenize(p[1..]);
      TokenizeLiteralText(w[1..], q);
      assert LiteralTokens(w) == [Literal(w[0])] + LiteralTokens(w[1..]);
      assert Tokenize(p) == [Literal(w[0])] + (LiteralTokens(w[1..]) + Tokenize(q));
    } else {
      assert w + q == q;
    }
  }

  /** Literal tokens match exactly their own text, followed by what the rest matches. */
  lemma {:induction false} MatchLiteralPrefix(w: seq<char>, ts: seq<Token>, s: seq<char>)
    ensures MatchTokens(LiteralTokens(w) + ts, s)
        <==> |w| <= |s| && s[..|w|] == w && MatchTokens(ts, s[|w|..])
    decreases |w|
  {
    if w != [] {
      var all := LiteralTokens(w) + ts;
      assert all[0] == Literal(w[0]);
      assert all[1..] == LiteralTokens(w[1..]) + ts;
      if s != [] {
        MatchLiteralPrefix(w[1..], ts, s[1..]);
        if |w| <= |s| {
          assert s[1..][..|w| - 1] == s[1..|w|];
          assert s[1..][|w| - 1..] == s[|w|..];
          assert s[..|w|] == [s[0]] + s[1..|w|];
          assert w == [w[0]] + w[1..];
        }
      }
    } else {
      assert LiteralTokens(w) + ts == ts;
    }
  }

  /** `*` followed by `ts` matches `s` exactly when `ts` matches some suffix of `s`. */
  lemma {:induction false} StarMatchesSuffix(ts: seq<Token>, s: seq<char>)
    ensures MatchTokens([AnyString] + ts, s)
        <==> exists k :: 0 <= k <= |s| && MatchTokens(ts, s[k..])
    decreases |s|
  {
    var star := [AnyString] + ts;
    assert star[1..] == ts;
    if s == [] {
      assert s[0..] == s;
    } else {
      StarMatchesSuffix(ts, s[1..]);
      assert s[0..] == s;
      if exists k :: 0 <= k <= |s| && MatchTokens(ts, s[k..]) {
        var k :| 0 <= k <= |s| && MatchTokens(ts, s[k..]);
        if k > 0 {
          assert s[1..][k - 1..] == s[k..];
        }
      }
      if exists k :: 0 <= k <= |s[1..]| && MatchTokens(ts, s[1..][k..]) {
        var k :| 0 <= k <= |s[1..]| && MatchTokens(ts, s[1..][k..]);
        assert s[1..][k..] == s[k + 1..];
      }
    }
  }

  /** Two adjacent `*` tokens match exactly what one does. */
  lemma DoubleStarTokens(ts: seq<Token>, s: seq<char>)
    ensures MatchTokens([AnyString, AnyString] + ts, s) == MatchTokens([AnyString] + ts, s)
  {
    var one := [AnyString] + ts;
    assert [AnyString, AnyString] + ts == [AnyString] + one;
    StarMatchesSuffix(one, s);
    StarMatchesSuffix(ts, s);
    if MatchTokens([AnyString] + one, s) {
      var k :| 0 <= k <= |s| && MatchTokens(one, s[k..]);
      StarMatchesSuffix(ts, s[k..]);
      var j :| 0 <= j <= |s[k..]| && MatchTokens(ts, s[k..][j..]);
      assert s[k..][j..] == s[k + j..];
    }
    if MatchTokens(one, s) {
      assert s[0..] == s;
    }
  }

  /** A lone `*` matches every string, `/` included. */
  lemma {:induction false} StarTokenMatchesAll(s: seq<char>)
    ensures MatchTokens([AnyString], s)
    decreases |s|
  {
    if s != [] {
      StarTokenMatchesAll(s[1..]);
    }
  }

  /** A brace-free pattern expands to itself alone, so it is matched as one alternative. */
  lemma BraceFreeExpandsToItself(p: seq<char>, s: seq<char>)
    requires '{' !in p
    ensures Expand(p) == [p]
    ensures FnMatch(p, s) == MatchAlternative(p, s)
  {
    assert FindGroup(p).NoBrace?;
    assert Expand(p) == [p];
    assert [p][1..] == [];
    assert !AnyAlternative([], s);
  }

  /** A pattern without special characters matches exactly the value equal to it. */
  lemma LiteralPatternMatchesOnlyItself(w: seq<char>, s: seq<char>)
    requires IsLiteralText(w)
    ensures FnMatch(w, s) <==> s == w
  {
    LiteralTextIsBraceFree(w);
    BraceFreeExpandsToItself(w, s);
    TokenizeLiteralText(w, []);
    assert w + [] == w;
    MatchLiteralPrefix(w, [], s);
    assert LiteralTokens(w) + [] == LiteralTokens(w);
    if s == w {
      assert s[..|w|] == w && s[|w|..] == [];
    }
  }

  /**
   * Literal text followed by `*` matches exactly the values that start with that text,
   * whatever follows it, `/` included.
   */
  lemma LiteralThenStar(w: seq<char>, s: seq<char>)
    requires IsLiteralText(w) && w != []
    ensures FnMatch(w + "*", s) <==> |w| <= |s| && s[..|w|] == w
  {
    var p := w + "*";
    LiteralTextIsBraceFree(w);
    BraceFreeExpandsToItself(p, s);
    TokenizeLiteralText(w, "*");
    assert Tokenize("*") == [AnyString];
    MatchLiteralPrefix(w, [AnyString], s);
    if |w| <= |s| {
      StarTokenMatchesAll(s[|w|..]);
    }
    assert p[0] == w[0];
    if s != [] && s[0] == '.' && w[0] != '.' && |w| <= |s| {
      assert s[..|w|][0] == s[0];
    }
  }

  /** `*` matches every value that does not start with `.`, `/` included. */
  lemma StarMatchesAll(s: seq<char>)
    ensures FnMatch("*", s) <==> !(s != [] && s[0] == '.')
  {
    BraceFreeExpandsToItself("*", s);
    assert Tokenize("*") == [AnyString];
    StarTokenMatchesAll(s);
  }

  /**
   * `**` behaves like `*`: replacing `*` by `**` changes nothing when the text before
   * it opens no class and the pattern has no brace group.
   */
  lemma DoubleStarIsStar(pre: seq<char>, post: seq<char>, s: seq<char>)
    requires '[' !in pre && '{' !in pre && '{' !in post
    ensures FnMatch(pre + "**" + post, s) == FnMatch(pre + "*" + post, s)
  {
    var p2 := pre + "**" + post;
    var p1 := pre + "*" + post;
    BraceFreeExpandsToItself(p2, s);
    BraceFreeExpandsToItself(p1, s);
    assert p2 == pre + ("**" + post);
    assert p1 == pre + ("*" + post);
    TokenizeAppend(pre, "**" + post);
    TokenizeAppend(pre, "*" + post);
    assert ("**" + post)[1..] == "*" + post;
    assert ("*" + post)[1..] == post;
    var xs := Tokenize(pre);
    var ys := Tokenize(post);
    assert Tokenize("**" + post) == [AnyString, AnyString] + ys;
    assert Tokenize("*" + post) == [AnyString] + ys;
    assert Tokenize(p2) == xs + [AnyString, AnyString] + ys;
    assert Tokenize(p1) == xs + [AnyString] + ys;
    DoubleStarAnywhere(xs, ys, s);
    if pre == [] {
      assert p2[0] == '*' && p1[0] == '*';
    } else {
      assert p2[0] == pre[0] && p1[0] == pre[0];
    }
  }

  /** A value starting with `.` is not matched by a brace-free pattern that does not. */
  lemma LeadingPeriodNeedsLiteralPeriod(p: seq<char>, s: seq<char>)
    requires '{' !in p
    requires s != [] && s[0] == '.' && (p == [] || p[0] != '.')
    ensures !FnMatch(p, s)
  {
    BraceFreeExpandsToItself(p, s);
  }
  /** The token a pattern character other than `[` stands for. */
  function HeadToken(c: char): Token {
    if c == '*' then AnyString else if c == '?' then AnyChar else Literal(c)
  }

  lemma TokenizeHead(p: seq<char>)
    requires p != [] && p[0] != '['
    ensures Tokenize(p) == [HeadToken(p[0])] + Tokenize(p[1..])
  {
  }

  /** Tokenizing distributes over concatenation when the first part opens no class. */
  lemma {:induction false} TokenizeAppend(p: seq<char>, q: seq<char>)
    requires '[' !in p
    ensures Tokenize(p + q) == Tokenize(p) + Tokenize(q)
    decreases |p|
  {
    if p == [] {
      assert p + q == q;
    } else {
      assert (p + q)[0] == p[0] && (p + q)[1..] == p[1..] + q;
      assert '[' !in p[1..];
      TokenizeHead(p);
      TokenizeHead(p + q);
      TokenizeAppend(p[1..], q);
    }
  }

  /** Wherever two adjacent `*` tokens stand, one of them can go. */
  lemma {:induction false} DoubleStarAnywhere(xs: seq<Token>, ys: seq<Token>, s: seq<char>)
    ensures MatchTokens(xs + [AnyString, AnyString] + ys, s) == MatchTokens(xs + [AnyString] + ys, s)
    decreases |xs|, |s|
  {
    var two := xs + [AnyString, AnyString] + ys;
    var one := xs + [AnyString] + ys;
    if xs == [] {
      assert two == [AnyString, AnyString] + ys && one == [AnyString] + ys;
      DoubleStarTokens(ys, s);
    } else {
      assert two[0] == xs[0] && one[0] == xs[0];
      assert two[1..] == xs[1..] + [AnyString, AnyString] + ys;
      assert one[1..] == xs[1..] + [AnyString] + ys;
      if xs[0] == AnyString {
        DoubleStarAnywhere(xs[1..], ys, s);
        if s != [] {
          DoubleStarAnywhere(xs, ys, s[1..]);
        }
      } else if s != [] {
        DoubleStarAnywhere(xs[1..], ys, s[1..]);
      }
    }
  }

  /** A pattern that is a single token other than `*` matches one character. */
  lemma OneTokenPattern(p: seq<char>, t: Token, s: seq<char>)
    requires '{' !in p && p != [] && p[0] != '.'
    requires Tokenize(p) == [t] && t != AnyString
    ensures FnMatch(p, s) <==> |s| == 1 && Accepts(t, s[0]) && s[0] != '.'
  {
    BraceFreeExpandsToItself(p, s);
    assert [t][0] == t && [t][1..] == [];
    if s != [] {
      assert MatchTokens([t], s) == (Accepts(t, s[0]) && MatchTokens([], s[1..]));
    } else {
      assert !MatchTokens([t], s);
    }
  }

  /** `?` matches any one character except a leading `.`. */
  lemma QuestionMarkMatchesOneChar(s: seq<char>)
    ensures FnMatch("?", s) <==> |s| == 1 && s != "."
  {
    assert Tokenize("?") == [AnyChar];
    OneTokenPattern("?", AnyChar, s);
    if |s| == 1 {
      assert s == [s[0]];
    }
  }

  /** A class body made of plain characters: no `]` to close it and no `-` to make a range. */
  predicate IsPlainClassBody(xs: seq<char>) {
    forall i :: 0 <= i < |xs| ==> xs[i] != ']' && xs[i] != '-' && xs[i] != '{'
  }

  function Singles(xs: seq<char>): (r: seq<ClassItem>)
    ensures |r| == |xs| && forall i :: 0 <= i < |xs| ==> r[i] == Single(xs[i])
  {
    if xs == [] then [] else [Single(xs[0])] + Singles(xs[1..])
  }

  lemma {:induction false} AnySingle(xs: seq<char>, c: char)
    ensures AnyItem(Singles(xs), c) <==> c in xs
    decreases |xs|
  {
    if xs != [] {
      assert Singles(xs)[1..] == Singles(xs[1..]);
      AnySingle(xs[1..], c);
      assert xs == [xs[0]] + xs[1..];
    }
  }

  lemma {:induction false} ClassItemsOfPlain(xs: seq<char>, rest: seq<char>)
    requires IsPlainClassBody(xs)
    ensures ClassItems(xs + "]" + rest) == Some((Singles(xs), rest))
    decreases |xs|
  {
    var q := xs + "]" + rest;
    if xs == [] {
      assert q == "]" + rest && q[1..] == rest;
    } else {
      assert q[0] == xs[0] && q[0] != ']';
      assert q[1] != '-' by {
        if |xs| >= 2 {
          assert q[1] == xs[1];
        } else {
          assert q[1] == ']';
        }
      }
      assert q[1..] == xs[1..] + "]" + rest;
      assert IsPlainClassBody(xs[1..]) by {
        forall i | 0 <= i < |xs[1..]|
          ensures xs[1..][i] != ']' && xs[1..][i] != '-' && xs[1..][i] != '{'
        {
          assert xs[1..][i] == xs[i + 1];
        }
      }
      ClassItemsOfPlain(xs[1..], rest);
      assert Singles(xs) == [Single(xs[0])] + Singles(xs[1..]);
    }
  }

  /** The pattern `[` + `body` + `]` is one token when the class closes at its last character. */
  lemma ClassPatternTokens(body: seq<char>, t: Token)
    requires ParseClass(body + "]") == Some((t, []))
    ensures Tokenize("[" + body + "]") == [t]
  {
    var p := "[" + body + "]";
    assert p[0] == '[' && p[1..] == body + "]";
    assert Tokenize([]) == [];
  }

  /**
   * `[xs]` with plain characters matches exactly one character of `xs` (never a
   * leading `.`); the empty class `[]` therefore matches nothing.
   */
  lemma ClassOfCharacters(xs: seq<char>, s: seq<char>)
    requires IsPlainClassBody(xs) && (xs == [] || (xs[0] != '!' && xs[0] != '^'))
    ensures FnMatch("[" + xs + "]", s) <==> |s| == 1 && s[0] in xs && s[0] != '.'
  {
    var p := "[" + xs + "]";
    ClassItemsOfPlain(xs, []);
    assert xs + "]" + [] == xs + "]";
    assert (xs + "]")[0] != '!' && (xs + "]")[0] != '^' by {
      if xs == [] {
        assert (xs + "]")[0] == ']';
      } else {
        assert (xs + "]")[0] == xs[0];
      }
    }
    var t := Class(false, Singles(xs));
    assert ParseClass(xs + "]") == Some((t, []));
    ClassPatternTokens(xs, t);
    assert '{' !in p;
    assert p[0] == '[';
    OneTokenPattern(p, t, s);
    if s != [] {
      AnySingle(xs, s[0]);
    }
  }

  /**
   * `[!xs]` (or `[^xs]`) with plain characters matches exactly one character not in
   * `xs` (never a leading `.`); `[!]` therefore matches any one character.
   */
  lemma NegatedClassOfCharacters(bang: char, xs: seq<char>, s: seq<char>)
    requires bang == '!' || bang == '^'
    requires IsPlainClassBody(xs)
    ensures FnMatch("[" + [bang] + xs + "]", s) <==> |s| == 1 && s[0] !in xs && s[0] != '.'
  {
    var body := [bang] + xs;
    var p := "[" + body + "]";
    assert p == "[" + [bang] + xs + "]";
    ClassItemsOfPlain(xs, []);
    assert xs + "]" + [] == xs + "]";
    assert (body + "]")[0] == bang && (body + "]")[1..] == xs + "]";
    var t := Class(true, Singles(xs));
    assert ParseClass(body + "]") == Some((t, []));
    ClassPatternTokens(body, t);
    assert '{' !in p;
    assert p[0] == '[';
    OneTokenPattern(p, t, s);
    if s != [] {
      AnySingle(xs, s[0]);
    }
  }

  /**
   * `[lo-hi]` matches one character between `lo` and `hi`, and always `lo` and `hi`
   * themselves, so a reversed range such as `[z-a]` matches its two ends only.
   */
  lemma RangeClass(lo: char, hi: char, s: seq<char>)
    requires lo != ']' && lo != '!' && lo != '^' && lo != '{'
    requires hi != ']' && hi != '{'
    ensures FnMatch("[" + [lo, '-', hi] + "]", s)
        <==> |s| == 1 && (s[0] == lo || s[0] == hi || (lo <= s[0] && s[0] <= hi)) && s[0] != '.'
  {
    var body := [lo, '-', hi];
    var q := body + "]";
    assert q == [lo, '-', hi, ']'] && q[3..] == "]";
    assert q[0] == lo && q[1] == '-' && q[2] == hi && |q| == 4;
    assert ClassItems(q[3..]) == Some(([], []));
    assert q[0] != ']' && |q| >= 2 && q[1] == '-' && !(|q| >= 3 && q[2] == ']');
    assert [Range(lo, hi)] + [] == [Range(lo, hi)];
    var t := Class(false, [Range(lo, hi)]);
    assert ClassItems(q) == Some(([Range(lo, hi)], []));
    assert ParseClass(q) == Some((t, []));
    ClassPatternTokens(body, t);
    var p := "[" + body + "]";
    assert p == ['[', lo, '-', hi, ']'];
    OneTokenPattern(p, t, s);
    if s != [] {
      assert [Range(lo, hi)][1..] == [] && !AnyItem([], s[0]);
      assert AnyItem([Range(lo, hi)], s[0]) == ItemMatches(Range(lo, hi), s[0]);
    }
  }

  /** Text that brace expansion passes through untouched: no `{`, `}` or `,`. */
  predicate IsPlainText(w: seq<char>) {
    forall i :: 0 <= i < |w| ==> w[i] != '{' && w[i] != '}' && w[i] != ','
  }

  lemma {:induction false} CloseBraceSkipsPlain(p: seq<char>, i: nat, j: nat, depth: nat)
    requires i <= j <= |p| && depth >= 1
    requires forall k :: i <= k < j ==> p[k] != '{' && p[k] != '}'
    ensures CloseBrace(p, i, depth) == CloseBrace(p, j, depth)
    decreases j - i
  {
    if i < j {
      CloseBraceSkipsPlain(p, i + 1, j, depth);
    }
  }

  lemma PlainTextTail(x: seq<char>)
    requires IsPlainText(x) && x != []
    ensures IsPlainText(x[1..])
    ensures x[0] != '{' && x[0] != '}' && x[0] != ','
  {
    forall i | 0 <= i < |x[1..]| ensures x[1..][i] != '{' && x[1..][i] != '}' && x[1..][i] != ',' {
      assert x[1..][i] == x[i + 1];
    }
  }

  /** Plain text is a single alternative. */
  lemma {:induction false} AlternativesOfPlain(x: seq<char>)
    requires IsPlainText(x)
    ensures Alternatives(x, 0) == [x]
    decreases |x|
  {
    if x != [] {
      PlainTextTail(x);
      AlternativesOfPlain(x[1..]);
      var rest := Alternatives(x[1..], 0);
      assert rest == [x[1..]];
      assert Alternatives(x, 0) == [[x[0]] + rest[0]] + rest[1..];
      assert [x[0]] + x[1..] == x;
    }
  }

  /** Plain text up to the first comma is the first alternative. */
  lemma {:induction false} AlternativesAfterPlain(x: seq<char>, y: seq<char>)
    requires IsPlainText(x)
    ensures Alternatives(x + [','] + y, 0) == [x] + Alternatives(y, 0)
    decreases |x|
  {
    var body := x + [','] + y;
    if x == [] {
      assert body == [','] + y;
      assert body[0] == ',' && body[1..] == y;
    } else {
      PlainTextTail(x);
      AlternativesAfterPlain(x[1..], y);
      assert body[0] == x[0] && body[1..] == x[1..] + [','] + y;
      var rest := Alternatives(body[1..], 0);
      assert rest == [x[1..]] + Alternatives(y, 0);
      assert Alternatives(body, 0) == [[x[0]] + rest[0]] + rest[1..];
      assert [x[0]] + x[1..] == x;
    }
  }

  lemma {:induction false} IndexOfAt(p: seq<char>, c: char, i: nat)
    requires i < |p| && p[i] == c && c !in p[..i]
    ensures IndexOf(p, c) == Some(i)
    decreases i
  {
    if i > 0 {
      assert p[..i][0] == p[0];
      assert p[1..][..i - 1] == p[..i][1..];
      IndexOfAt(p[1..], c, i - 1);
    }
  }

  /** The `}` at `rb` closes the group opened at `lb` when nothing between is a brace. */
  lemma CloseBraceOfGroup(p: seq<char>, lb: nat, rb: nat)
    requires lb < rb < |p| && p[rb] == '}'
    requires forall k :: lb < k < rb ==> p[k] != '{' && p[k] != '}'
    ensures CloseBrace(p, lb + 1, 1) == Some(rb)
  {
    CloseBraceSkipsPlain(p, lb + 1, rb, 1);
  }

  /** The layout of `pre { body } post`, position by position. */
  lemma GroupLayout(p: seq<char>, pre: seq<char>, body: seq<char>, post: seq<char>)
    requires p == pre + "{" + body + "}" + post
    requires forall k :: 0 <= k < |body| ==> body[k] != '{' && body[k] != '}'
    ensures |p| == |pre| + |body| + |post| + 2
    ensures p[..|pre|] == pre && p[|pre|] == '{'
    ensures p[|pre| + 1..|pre| + 1 + |body|] == body && p[|pre| + 1 + |body|] == '}'
    ensures p[|pre| + 2 + |body|..] == post
    ensures forall k :: |pre| < k < |pre| + 1 + |body| ==> p[k] != '{' && p[k] != '}'
  {
    forall k | |pre| < k < |pre| + 1 + |body| ensures p[k] != '{' && p[k] != '}' {
      assert p[k] == body[k - |pre| - 1];
    }
  }

  /** The first group of `p` opens at `lb` and closes at `rb` when nothing between is a brace. */
  lemma FindGroupAt(p: seq<char>, lb: nat, rb: nat)
    requires lb < rb < |p| && p[lb] == '{' && p[rb] == '}' && '{' !in p[..lb]
    requires forall k :: lb < k < rb ==> p[k] != '{' && p[k] != '}'
    ensures FindGroup(p) == Group(p[..lb], p[lb + 1..rb], p[rb + 1..])
  {
    IndexOfAt(p, '{', lb);
    CloseBraceOfGroup(p, lb, rb);
  }

  /** A pattern whose first `{` opens a group without nested braces expands each alternative of it. */
  lemma ExpandBraceGroup(p: seq<char>, pre: seq<char>, body: seq<char>, post: seq<char>)
    requires p == pre + "{" + body + "}" + post
    requires '{' !in pre
    requires forall k :: 0 <= k < |body| ==> body[k] != '{' && body[k] != '}'
    ensures FindGroup(p) == Group(pre, body, post)
  {
    GroupLayout(p, pre, body, post);
    FindGroupAt(p, |pre|, |pre| + 1 + |body|);
  }

  /** The body `a,b` of a group holds no brace and has the alternatives `a` and `b`. */
  lemma AlternationBody(a: seq<char>, b: seq<char>)
    requires IsPlainText(a) && IsPlainText(b)
    ensures forall k :: 0 <= k < |a + [','] + b| ==> (a + [','] + b)[k] != '{' && (a + [','] + b)[k] != '}'
    ensures Alternatives(a + [','] + b, 0) == [a, b]
  {
    var body := a + [','] + b;
    forall k | 0 <= k < |body| ensures body[k] != '{' && body[k] != '}' {
      if k < |a| {
        assert body[k] == a[k];
      } else if k > |a| {
        assert body[k] == b[k - |a| - 1];
      }
    }
    AlternativesAfterPlain(a, b);
    AlternativesOfPlain(b);
  }

  /** `{a,b}` stands for `a` and then `b`, with the text around the braces kept. */
  lemma ExpandAlternation(pre: seq<char>, a: seq<char>, b: seq<char>, post: seq<char>)
    requires '{' !in pre && IsPlainText(a) && IsPlainText(b)
    ensures Expand(pre + "{" + a + "," + b + "}" + post)
         == Expand(pre + a + post) + Expand(pre + b + post)
  {
    var body := a + [','] + b;
    var p := pre + "{" + body + "}" + post;
    assert pre + "{" + a + "," + b + "}" + post == p;
    AlternationBody(a, b);
    ExpandBraceGroup(p, pre, body, post);
    var alts := Alternatives(body, 0);
    assert Expand(p) == ExpandEach(pre, alts, post, |p|);
    assert alts[1..] == [b];
    assert ExpandEach(pre, alts[1..][1..], post, |p|) == [];
  }

  /** Some alternative of `x + y` matches exactly when one of `x` or one of `y` does. */
  lemma {:induction false} AnyAlternativeAppend(x: seq<seq<char>>, y: seq<seq<char>>, s: seq<char>)
    ensures AnyAlternative(x + y, s) <==> AnyAlternative(x, s) || AnyAlternative(y, s)
    decreases |x|
  {
    if x == [] {
      assert x + y == y;
    } else {
      assert (x + y)[0] == x[0] && (x + y)[1..] == x[1..] + y;
      AnyAlternativeAppend(x[1..], y, s);
    }
  }

  /** A value matches `{a,b}` exactly when it matches `a` or matches `b`. */
  lemma FnMatchAlternation(pre: seq<char>, a: seq<char>, b: seq<char>, post: seq<char>, s: seq<char>)
    requires '{' !in pre && IsPlainText(a) && IsPlainText(b)
    ensures FnMatch(pre + "{" + a + "," + b + "}" + post, s)
        <==> FnMatch(pre + a + post, s) || FnMatch(pre + b + post, s)
  {
    ExpandAlternation(pre, a, b, post);
    AnyAlternativeAppend(Expand(pre + a + post), Expand(pre + b + post), s);
  }
}
