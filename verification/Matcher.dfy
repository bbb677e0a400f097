/** Query normalisation and the rule matcher. */
module Matcher {
  import opened Text

  /** White space to the regular expression `\s`: not the vertical tab. */
  const BLANKS: set<byte> := {'\t', '\n', '\U{0C}', '\r', ' '}

  /** Every run of blanks becomes one space. */
  function Collapse(s: Text): (r: Text)
    ensures |r| <= |s| && (s == [] <==> r == [])
    decreases |s|
  {
    if s == [] then []
    else if s[0] in BLANKS then [' '] + Collapse(TrimLeft(s[1..], BLANKS))
    else [s[0]] + Collapse(s[1..])
  }

  function TrimSemicolon(s: Text): Text {
    if s != [] && s[|s| - 1] == ';' then s[..|s| - 1] else s
  }

  function NormalizeSQL(sql: Text): Text {
    Collapse(TrimSpace(TrimSemicolon(TrimSpace(sql))))
  }

  // ---------- Matching ----------

  /** What a rule asks of a query; an empty pattern asks nothing. */
  datatype Condition = Condition(query: Text, pattern: Text, params: seq<Text>)

  predicate ParamMatches(expected: Text, actual: Option<Text>) {
    if expected == "*" || expected == "ANY" then true
    else if expected == NULL then actual.None?
    else actual == Some(expected)
  }

  predicate ParamsMatch(expected: seq<Text>, actual: Params) {
    |expected| > 0 ==>
      |expected| == |actual| && forall i :: 0 <= i < |expected| ==> ParamMatches(expected[i], actual[i])
  }

  /** A rule query ending in the suffix matches by what precedes it. */
  predicate PrefixMatches(rule: Text, suffix: Text, query: Text) {
    HasSuffix(rule, suffix) && HasPrefix(ToUpper(query), ToUpper(rule[..|rule| - |suffix|]))
  }

  predicate TextMatches(ruleQuery: Text, query: Text) {
    var rule, incoming := NormalizeSQL(ruleQuery), NormalizeSQL(query);
    EqualFold(rule, incoming) || PrefixMatches(rule, "...", incoming) || PrefixMatches(rule, "%", incoming)
  }

  /** `regex` says whether a pattern finds a match in a query; a pattern that
      does not compile finds none. */
  predicate Matches(c: Condition, query: Text, params: Params, regex: (Text, Text) -> bool) {
    ParamsMatch(c.params, params) && ((c.pattern != [] && regex(c.pattern, query)) || TextMatches(c.query, query))
  }

  // ---------- What normalisation leaves ----------

  lemma CollapseEnds(s: Text)
    ensures s != [] && s[0] !in BLANKS ==> Collapse(s)[0] == s[0]
    ensures s != [] && s[|s| - 1] !in BLANKS ==> Collapse(s)[|Collapse(s)| - 1] == s[|s| - 1]
  {
    CollapseBack(s);
  }

  lemma {:induction false} CollapseBack(s: Text)
    ensures s != [] && s[|s| - 1] !in BLANKS ==> Collapse(s)[|Collapse(s)| - 1] == s[|s| - 1]
    decreases |s|
  {
    if |s| > 1 && s[|s| - 1] !in BLANKS {
      var t := s[1..];
      var rest := if s[0] in BLANKS then TrimLeft(t, BLANKS) else t;
      TrimLeftIsSuffix(t, BLANKS);
      LastSurvives(t);
      CollapseBack(rest);
      assert rest != [] && rest[|rest| - 1] == s[|s| - 1];
      var first: byte := if s[0] in BLANKS then ' ' else s[0];
      assert Collapse(s) == [first] + Collapse(rest);
    }
  }

  lemma {:induction false} LastSurvives(s: Text)
    requires s != [] && s[|s| - 1] !in BLANKS
    ensures TrimLeft(s, BLANKS) != []
  {
    if s[0] in BLANKS {
      LastSurvives(s[1..]);
    }
  }

  /** Blanks are single spaces standing between other bytes. */
  ghost predicate SingleSpaced(s: Text) {
    forall i :: 0 <= i < |s| && s[i] in BLANKS ==> s[i] == ' ' && (i + 1 < |s| ==> s[i + 1] !in BLANKS)
  }

  lemma {:induction false} CollapsedIsSingleSpaced(s: Text)
    ensures SingleSpaced(Collapse(s))
    decreases |s|
  {
    if s != [] {
      var rest := if s[0] in BLANKS then TrimLeft(s[1..], BLANKS) else s[1..];
      CollapsedIsSingleSpaced(rest);
      CollapseEnds(rest);
      var r := Collapse(s);
      assert r[1..] == Collapse(rest);
      forall i | 0 <= i < |r| && r[i] in BLANKS
        ensures r[i] == ' ' && (i + 1 < |r| ==> r[i + 1] !in BLANKS)
      {
        if i > 0 {
          assert r[i] == r[1..][i - 1];
        } else if |r| > 1 {
          assert r[1] == r[1..][0];
        }
      }
    }
  }

  lemma {:induction false} CollapseKeeps(s: Text)
    requires SingleSpaced(s)
    ensures Collapse(s) == s
  {
    if s != [] {
      assert SingleSpaced(s[1..]) by {
        forall i | 0 <= i < |s| - 1 && s[1..][i] in BLANKS
          ensures s[1..][i] == ' ' && (i + 1 < |s[1..]| ==> s[1..][i + 1] !in BLANKS)
        {
          assert s[1..][i] == s[i + 1];
        }
      }
      CollapseKeeps(s[1..]);
      if s[0] in BLANKS && |s| > 1 {
        assert s[1] !in BLANKS;
      }
      assert s == [s[0]] + s[1..];
    }
  }

  lemma BlanksAreSpaces(c: byte)
    ensures c in BLANKS ==> c in SPACES
  {
  }

  lemma CollapseTrimmed(u: Text)
    requires Trimmed(u, SPACES)
    ensures Trimmed(Collapse(u), SPACES)
    ensures u != [] ==> Collapse(u)[|Collapse(u)| - 1] == u[|u| - 1]
  {
    CollapseEnds(u);
    if u != [] {
      BlanksAreSpaces(u[0]);
      BlanksAreSpaces(u[|u| - 1]);
    }
  }

  /** The normal form has single inner spaces and nothing to trim. */
  lemma NormalForm(sql: Text)
    ensures SingleSpaced(NormalizeSQL(sql)) && Trimmed(NormalizeSQL(sql), SPACES)
  {
    var t := TrimSemicolon(TrimSpace(sql));
    var a, b := TrimIsSlice(t, SPACES);
    CollapsedIsSingleSpaced(TrimSpace(t));
    CollapseTrimmed(TrimSpace(t));
  }

  // ---------- Idempotence ----------

  /** Semicolons at the end, looking through white space. */
  function TrailingSemicolons(s: Text): nat {
    if s == [] then 0
    else if s[|s| - 1] in SPACES then TrailingSemicolons(s[..|s| - 1])
    else if s[|s| - 1] == ';' then 1 + TrailingSemicolons(s[..|s| - 1])
    else 0
  }

  lemma {:induction false} TrailingIgnoresFront(s: Text)
    requires s != [] && s[0] in SPACES
    ensures TrailingSemicolons(s[1..]) == TrailingSemicolons(s)
  {
    if |s| > 1 {
      assert s[1..][..|s| - 2] == s[..|s| - 1][1..];
      TrailingIgnoresFront(s[..|s| - 1]);
    }
  }

  lemma {:induction false} TrailingIgnoresTrimLeft(s: Text)
    ensures TrailingSemicolons(TrimLeft(s, SPACES)) == TrailingSemicolons(s)
  {
    if s != [] && s[0] in SPACES {
      TrailingIgnoresFront(s);
      TrailingIgnoresTrimLeft(s[1..]);
    }
  }

  lemma {:induction false} TrailingIgnoresTrimRight(s: Text)
    ensures TrailingSemicolons(TrimRight(s, SPACES)) == TrailingSemicolons(s)
  {
    if s != [] && s[|s| - 1] in SPACES {
      TrailingIgnoresTrimRight(s[..|s| - 1]);
    }
  }

  lemma TrailingIgnoresTrim(s: Text)
    ensures TrailingSemicolons(TrimSpace(s)) == TrailingSemicolons(s)
    ensures var t := TrimSpace(s); Trimmed(t, SPACES)
  {
    TrailingIgnoresTrimLeft(s);
    TrailingIgnoresTrimRight(TrimLeft(s, SPACES));
    var a, b := TrimIsSlice(s, SPACES);
  }

  lemma NormalizeNormal(n: Text)
    requires SingleSpaced(n) && Trimmed(n, SPACES)
    ensures NormalizeSQL(n) == n <==> (n == [] || n[|n| - 1] != ';')
  {
    TrimKeepsTrimmed(n, SPACES);
    if n != [] && n[|n| - 1] == ';' {
      var a, b := TrimIsSlice(n[..|n| - 1], SPACES);
    } else {
      CollapseKeeps(n);
    }
  }

  /** Normalising twice is normalising once exactly when the text ends in at
      most one semicolon. */
  lemma IdempotentIff(sql: Text)
    ensures NormalizeSQL(NormalizeSQL(sql)) == NormalizeSQL(sql) <==> TrailingSemicolons(sql) <= 1
  {
    hide Collapse, TrimLeft, TrimRight, TrailingSemicolons, SPACES;
    NormalForm(sql);
    NormalizeNormal(NormalizeSQL(sql));
    var t := TrimSpace(sql);
    TrailingIgnoresTrim(sql);
    TrailingOfTrimmed(t);
    var u := TrimSpace(TrimSemicolon(t));
    TrailingIgnoresTrim(TrimSemicolon(t));
    TrailingOfTrimmed(u);
    CollapseTrimmed(u);
  }

  lemma TrailingOfTrimmed(t: Text)
    requires Trimmed(t, SPACES)
    ensures TrailingSemicolons(t) ==
            if t != [] && t[|t| - 1] == ';' then 1 + TrailingSemicolons(TrimSemicolon(t)) else 0
  {
  }

  lemma TwoSemicolons()
    ensures NormalizeSQL(NormalizeSQL("a;;")) != NormalizeSQL("a;;")
  {
    var s: Text := "a;;";
    assert s[..2][..1] == ['a'];
    assert TrailingSemicolons(s) == 2;
    IdempotentIff(s);
  }

  // ---------- White-space layout ----------

  /** Words have no blanks; a query's first and last bytes are not white space
      and its last is not a semicolon. */
  ghost predicate Words(words: seq<Text>) {
    && (forall i, j :: 0 <= i < |words| && 0 <= j < |words[i]| ==> words[i][j] !in BLANKS)
    && (forall i :: 0 <= i < |words| ==> words[i] != [])
    && (words != [] ==> words[0][0] !in SPACES && var w := words[|words| - 1]; w[|w| - 1] !in SPACES && w[|w| - 1] != ';')
  }

  /** One way to lay the same words out: white space around them, a run of
      blanks after each but the last, perhaps a semicolon and more white space. */
  datatype Layout = Layout(lead: Text, gaps: seq<Text>, trail: Text, semicolon: Option<Text>)

  ghost predicate LayoutFor(l: Layout, words: seq<Text>) {
    && AllBlank(l.lead, SPACES) && AllBlank(l.trail, SPACES)
    && (l.semicolon.Some? ==> AllBlank(l.semicolon.value, SPACES))
    && |l.gaps| == |words| && forall i :: 0 <= i < |words| ==> l.gaps[i] != [] && AllBlank(l.gaps[i], BLANKS)
  }

  function Spread(words: seq<Text>, gaps: seq<Text>): Text
    requires |gaps| == |words|
  {
    if words == [] then []
    else if |words| == 1 then words[0]
    else words[0] + (gaps[0] + Spread(words[1..], gaps[1..]))
  }

  function Spell(words: seq<Text>, l: Layout): Text
    requires |l.gaps| == |words|
  {
    var core := l.lead + Spread(words, l.gaps) + l.trail;
    match l.semicolon
    case None => core
    case Some(after) => core + [';'] + after
  }

  lemma {:induction false} CollapseWord(w: Text, rest: Text)
    requires forall j :: 0 <= j < |w| ==> w[j] !in BLANKS
    ensures Collapse(w + rest) == w + Collapse(rest)
  {
    if w == [] {
      assert w + rest == rest;
    } else {
      assert (w + rest)[1..] == w[1..] + rest;
      CollapseWord(w[1..], rest);
    }
  }

  lemma CollapseGap(gap: Text, rest: Text)
    requires gap != [] && AllBlank(gap, BLANKS) && rest != [] && rest[0] !in BLANKS
    ensures Collapse(gap + rest) == [' '] + Collapse(rest)
  {
    assert (gap + rest)[1..] == gap[1..] + rest;
    TrimLeftCut(gap[1..], rest, BLANKS);
  }

  lemma {:induction false} CollapseSpread(words: seq<Text>, gaps: seq<Text>)
    requires |gaps| == |words| && words != []
    requires forall i, j :: 0 <= i < |words| && 0 <= j < |words[i]| ==> words[i][j] !in BLANKS
    requires forall i :: 0 <= i < |words| ==> words[i] != []
    requires forall i :: 0 <= i < |words| ==> gaps[i] != [] && AllBlank(gaps[i], BLANKS)
    ensures Collapse(Spread(words, gaps)) == Join(words, ' ')
    ensures Spread(words, gaps) != [] && Spread(words, gaps)[0] == words[0][0]
    ensures var s, w := Spread(words, gaps), words[|words| - 1]; s[|s| - 1] == w[|w| - 1]
  {
    hide Collapse;
    if |words| == 1 {
      CollapseWord(words[0], []);
      assert words[0] + [] == words[0];
      assert Collapse([]) == [];
    } else {
      var rest := Spread(words[1..], gaps[1..]);
      CollapseSpread(words[1..], gaps[1..]);
      CollapseGap(gaps[0], rest);
      CollapseWord(words[0], gaps[0] + rest);
      assert words[0] + [' '] + Join(words[1..], ' ') == words[0] + ([' '] + Join(words[1..], ' '));
    }
  }

  ghost predicate Core(s: Text) {
    Trimmed(s, SPACES) && (s != [] ==> s[|s| - 1] != ';')
  }

  lemma NormalizePlain(lead: Text, core: Text, trail: Text)
    requires AllBlank(lead, SPACES) && AllBlank(trail, SPACES) && Core(core)
    ensures NormalizeSQL(lead + core + trail) == Collapse(core)
  {
    hide Collapse, SPACES, Trim;
    TrimAround(lead, core, trail, SPACES);
    TrimKeepsTrimmed(core, SPACES);
  }

  /** White space and one semicolon around a core text disappear. */
  lemma NormalizeEnded(lead: Text, core: Text, trail: Text, after: Text)
    requires AllBlank(lead, SPACES) && AllBlank(trail, SPACES) && AllBlank(after, SPACES) && Core(core)
    ensures NormalizeSQL(lead + core + trail + [';'] + after) == Collapse(core)
  {
    hide Collapse, SPACES, Trim;
    SemicolonIsNoSpace();
    var s := lead + core + trail + [';'] + after;
    if core == [] {
      assert s == (lead + trail) + [';'] + after;
      TrimAround(lead + trail, [';'], after, SPACES);
      TrimKeepsTrimmed([], SPACES);
    } else {
      var middle := core + trail + [';'];
      assert s == lead + middle + after;
      TrimAround(lead, middle, after, SPACES);
      assert TrimSemicolon(middle) == [] + core + trail;
      TrimAround([], core, trail, SPACES);
    }
  }

  lemma SemicolonIsNoSpace()
    ensures ';' !in SPACES
  {
  }

  lemma SpellingNormalizes(words: seq<Text>, l: Layout)
    requires Words(words) && LayoutFor(l, words)
    ensures NormalizeSQL(Spell(words, l)) == if words == [] then [] else Join(words, ' ')
  {
    hide Collapse, NormalizeSQL, SPACES, Join;
    var core := Spread(words, l.gaps);
    if words != [] {
      CollapseSpread(words, l.gaps);
    }
    match l.semicolon {
      case None => NormalizePlain(l.lead, core, l.trail);
      case Some(after) => NormalizeEnded(l.lead, core, l.trail, after);
    }
    CollapseNothing();
  }

  lemma CollapseNothing()
    ensures Collapse([]) == []
  {
  }

  /** Two spellings of the same words are accepted by the same pattern-free
      rules, whatever their white space and optional semicolon. */
  lemma LayoutDoesNotMatter(words: seq<Text>, a: Layout, b: Layout, c: Condition, params: Params,
                            regex: (Text, Text) -> bool)
    requires Words(words) && LayoutFor(a, words) && LayoutFor(b, words) && c.pattern == []
    ensures Matches(c, Spell(words, a), params, regex) <==> Matches(c, Spell(words, b), params, regex)
  {
    hide NormalizeSQL, Spell, ParamsMatch;
    SpellingNormalizes(words, a);
    SpellingNormalizes(words, b);
  }

  // ---------- Letter case ----------

  /** Lowering a letter changes neither white space nor semicolons. */
  lemma LowerKeepsClass(c: byte)
    ensures (Lower(c) in BLANKS <==> c in BLANKS) && (c in BLANKS ==> Lower(c) == c)
    ensures (Lower(c) in SPACES <==> c in SPACES) && (Lower(c) == ';' <==> c == ';')
  {
  }

  lemma {:induction false} TrimLeftLower(s: Text, cut: set<byte>)
    requires cut == SPACES || cut == BLANKS
    ensures TrimLeft(ToLower(s), cut) == ToLower(TrimLeft(s, cut))
  {
    if s != [] {
      LowerKeepsClass(s[0]);
      assert ToLower(s)[1..] == ToLower(s[1..]);
      TrimLeftLower(s[1..], cut);
    }
  }

  lemma {:induction false} TrimRightLower(s: Text)
    ensures TrimRight(ToLower(s), SPACES) == ToLower(TrimRight(s, SPACES))
  {
    if s != [] {
      LowerKeepsClass(s[|s| - 1]);
      assert ToLower(s)[..|s| - 1] == ToLower(s[..|s| - 1]);
      TrimRightLower(s[..|s| - 1]);
    }
  }

  lemma TrimSpaceLower(s: Text)
    ensures TrimSpace(ToLower(s)) == ToLower(TrimSpace(s))
  {
    TrimLeftLower(s, SPACES);
    TrimRightLower(TrimLeft(s, SPACES));
  }

  lemma {:induction false} CollapseLower(s: Text)
    ensures Collapse(ToLower(s)) == ToLower(Collapse(s))
    decreases |s|
  {
    if s != [] {
      LowerKeepsClass(s[0]);
      assert ToLower(s)[1..] == ToLower(s[1..]);
      TrimLeftLower(s[1..], BLANKS);
      CollapseLower(if s[0] in BLANKS then TrimLeft(s[1..], BLANKS) else s[1..]);
    }
  }

  lemma NormalizeLower(s: Text)
    ensures NormalizeSQL(ToLower(s)) == ToLower(NormalizeSQL(s))
  {
    hide TrimSpace, Collapse;
    var t := TrimSpace(s);
    TrimSpaceLower(s);
    if t != [] {
      LowerKeepsClass(t[|t| - 1]);
      assert ToLower(t)[..|t| - 1] == ToLower(t[..|t| - 1]);
    }
    TrimSpaceLower(TrimSemicolon(t));
    CollapseLower(TrimSpace(TrimSemicolon(t)));
  }

  lemma UpperOfLower(s: Text)
    ensures ToUpper(ToLower(s)) == ToUpper(s)
  {
    assert forall c: byte :: Upper(Lower(c)) == Upper(c);
  }

  /** Queries that differ only in letter case are accepted by the same
      pattern-free rules. */
  lemma CaseDoesNotMatter(c: Condition, a: Text, b: Text, params: Params, regex: (Text, Text) -> bool)
    requires ToLower(a) == ToLower(b) && c.pattern == []
    ensures Matches(c, a, params, regex) <==> Matches(c, b, params, regex)
  {
    hide NormalizeSQL, ToLower, ToUpper, ParamsMatch;
    NormalizeLower(a);
    NormalizeLower(b);
    UpperOfLower(NormalizeSQL(a));
    UpperOfLower(NormalizeSQL(b));
  }

  // ---------- Wildcards ----------

  predicate IsWildcard(suffix: Text) {
    suffix == "..." || suffix == "%"
  }

  lemma PrefixOfFolded(p: Text, suffix: Text, n: Text)
    ensures EqualFold(p + suffix, n) ==> HasPrefix(ToUpper(n), ToUpper(p))
  {
    if EqualFold(p + suffix, n) {
      UpperOfLower(p + suffix);
      UpperOfLower(n);
      assert ToUpper(n) == ToUpper(p + suffix);
      assert ToUpper(p + suffix)[..|p|] == ToUpper(p);
    }
  }

  /** A rule query ending in a wildcard accepts exactly the queries that begin,
      once normalised and up to letter case, with what precedes it. */
  lemma WildcardIff(rule: Text, p: Text, suffix: Text, query: Text)
    requires IsWildcard(suffix) && NormalizeSQL(rule) == p + suffix
    ensures TextMatches(rule, query) <==> HasPrefix(ToUpper(NormalizeSQL(query)), ToUpper(p))
  {
    hide NormalizeSQL, ToUpper, EqualFold;
    var n := NormalizeSQL(query);
    PrefixOfFolded(p, suffix, n);
    var r := p + suffix;
    assert r[..|r| - |suffix|] == p;
    assert HasSuffix(r, suffix);
    OtherWildcard(r);
  }

  lemma LastOfSuffix(r: Text, suffix: Text)
    requires suffix != []
    ensures HasSuffix(r, suffix) ==> r != [] && r[|r| - 1] == suffix[|suffix| - 1]
  {
    if HasSuffix(r, suffix) {
      assert r[|r| - |suffix|..][|suffix| - 1] == suffix[|suffix| - 1];
    }
  }

  lemma OtherWildcard(r: Text)
    ensures !(HasSuffix(r, "...") && HasSuffix(r, "%"))
  {
    LastOfSuffix(r, "...");
    LastOfSuffix(r, "%");
  }

  /** A rule query without one accepts exactly the queries equal to it, once
      both are normalised, up to letter case. */
  lemma ExactIff(rule: Text, query: Text)
    requires !HasSuffix(NormalizeSQL(rule), "...") && !HasSuffix(NormalizeSQL(rule), "%")
    ensures TextMatches(rule, query) <==> EqualFold(NormalizeSQL(rule), NormalizeSQL(query))
  {
    hide NormalizeSQL;
  }

  // ---------- What an exact rule accepts ----------

  /** The same words up to letter case. */
  predicate SameWords(a: seq<Text>, b: seq<Text>) {
    |a| == |b| && forall i :: 0 <= i < |a| ==> EqualFold(a[i], b[i])
  }

  function Lowered(words: seq<Text>): (r: seq<Text>)
    ensures |r| == |words| && forall i :: 0 <= i < |words| ==> r[i] == ToLower(words[i])
  {
    seq(|words|, i requires 0 <= i < |words| => ToLower(words[i]))
  }

  lemma {:induction false} LowerJoin(words: seq<Text>)
    requires words != []
    ensures ToLower(Join(words, ' ')) == Join(Lowered(words), ' ')
  {
    hide Lower;
    SpaceStays();
    if |words| > 1 {
      LowerJoin(words[1..]);
      assert Lowered(words)[1..] == Lowered(words[1..]);
      assert ToLower(words[0] + [' '] + Join(words[1..], ' ')) ==
             ToLower(words[0]) + [Lower(' ')] + ToLower(Join(words[1..], ' '));
    }
  }

  lemma SpaceStays()
    ensures Lower(' ') == ' '
  {
  }

  lemma LowerNoSpace(words: seq<Text>)
    requires Words(words)
    ensures forall i :: 0 <= i < |words| ==> ' ' !in Lowered(words)[i]
  {
    forall i, j | 0 <= i < |words| && 0 <= j < |words[i]|
      ensures Lowered(words)[i][j] != ' '
    {
      LowerKeepsClass(words[i][j]);
    }
  }

  /** Joined words are equal up to letter case exactly when the words are. */
  lemma JoinedEqualIff(a: seq<Text>, b: seq<Text>)
    requires Words(a) && Words(b) && a != [] && b != []
    ensures EqualFold(Join(a, ' '), Join(b, ' ')) <==> SameWords(a, b)
  {
    hide Words, Join, ToLower;
    LowerJoin(a);
    LowerJoin(b);
    LowerNoSpace(a);
    LowerNoSpace(b);
    SplitJoin(Lowered(a), ' ');
    SplitJoin(Lowered(b), ' ');
    if SameWords(a, b) {
      assert Lowered(a) == Lowered(b);
    }
  }

  lemma EqualFoldEmpty(s: Text)
    ensures EqualFold([], s) <==> s == []
    ensures EqualFold(s, []) <==> s == []
  {
    assert |ToLower(s)| == |s|;
  }

  lemma JoinIsNotEmpty(words: seq<Text>)
    requires Words(words) && words != []
    ensures Join(words, ' ') != []
  {
  }

  /** The normal form of a list of words. */
  function Canonical(words: seq<Text>): Text {
    if words == [] then [] else Join(words, ' ')
  }

  /** A rule written with these words, however it is laid out, and not ending in
      a wildcard, accepts a query exactly when the query has the same words up
      to letter case, however that is laid out. */
  lemma ExactIffSameWords(rule: seq<Text>, ruleLayout: Layout, query: seq<Text>, queryLayout: Layout)
    requires Words(rule) && LayoutFor(ruleLayout, rule) && Words(query) && LayoutFor(queryLayout, query)
    requires !HasSuffix(Canonical(rule), "...") && !HasSuffix(Canonical(rule), "%")
    ensures TextMatches(Spell(rule, ruleLayout), Spell(query, queryLayout)) <==> SameWords(rule, query)
  {
    hide NormalizeSQL, Spell, Words, Join, TextMatches, HasSuffix, EqualFold;
    SpellingNormalizes(rule, ruleLayout);
    SpellingNormalizes(query, queryLayout);
    ExactIff(Spell(rule, ruleLayout), Spell(query, queryLayout));
    EqualFoldEmpty(Canonical(query));
    EqualFoldEmpty(Canonical(rule));
    if rule != [] && query != [] {
      JoinedEqualIff(rule, query);
    } else if rule != [] {
      JoinIsNotEmpty(rule);
    } else if query != [] {
      JoinIsNotEmpty(query);
    }
  }

  // ---------- Parameters and patterns ----------

  lemma SameWordsMatch(rule: seq<Text>, ruleLayout: Layout, query: seq<Text>, queryLayout: Layout)
    requires Words(rule) && LayoutFor(ruleLayout, rule) && Words(query) && LayoutFor(queryLayout, query)
    requires SameWords(rule, query)
    ensures TextMatches(Spell(rule, ruleLayout), Spell(query, queryLayout))
  {
    hide NormalizeSQL, Spell, Words, Join, HasSuffix, EqualFold;
    SpellingNormalizes(rule, ruleLayout);
    SpellingNormalizes(query, queryLayout);
    EqualFoldEmpty([]);
    if rule != [] {
      JoinedEqualIff(rule, query);
    }
  }

  /** Of the calls with a rule's own words, however they are laid out, the rule
      accepts exactly those with as many parameters as it has, each of which it
      leaves open with `*` or `ANY`, or expects to be null with `NULL`, or has
      with just these bytes; a rule without parameters accepts them all. */
  lemma ParametersIff(rule: seq<Text>, ruleLayout: Layout, query: seq<Text>, queryLayout: Layout,
                      expected: seq<Text>, params: Params, regex: (Text, Text) -> bool)
    requires Words(rule) && LayoutFor(ruleLayout, rule) && Words(query) && LayoutFor(queryLayout, query)
    requires SameWords(rule, query)
    ensures Matches(Condition(Spell(rule, ruleLayout), [], expected), Spell(query, queryLayout), params, regex) <==>
            expected == [] ||
            (|params| == |expected| && forall i :: 0 <= i < |expected| ==>
               || expected[i] == "*" || expected[i] == "ANY"
               || (expected[i] == "NULL" && params[i].None?)
               || (expected[i] != "NULL" && params[i] == Some(expected[i])))
  {
    hide TextMatches, Spell, Words;
    SameWordsMatch(rule, ruleLayout, query, queryLayout);
  }

  /** In particular a rule of n wildcards accepts the calls with n parameters. */
  lemma OnlyWildcards(rule: seq<Text>, ruleLayout: Layout, query: seq<Text>, queryLayout: Layout,
                      expected: seq<Text>, params: Params, regex: (Text, Text) -> bool)
    requires Words(rule) && LayoutFor(ruleLayout, rule) && Words(query) && LayoutFor(queryLayout, query)
    requires SameWords(rule, query)
    requires expected != [] && forall i :: 0 <= i < |expected| ==> expected[i] == "*" || expected[i] == "ANY"
    ensures Matches(Condition(Spell(rule, ruleLayout), [], expected), Spell(query, queryLayout), params, regex) <==>
            |params| == |expected|
  {
    hide Matches, Spell, Words, LayoutFor;
    ParametersIff(rule, ruleLayout, query, queryLayout, expected, params, regex);
  }

  /** A pattern is asked about the query as it was sent, and accepts it or leaves
      it to the rule's text; a rule without one asks no pattern. */
  lemma PatternIff(c: Condition, query: Text, params: Params, regex: (Text, Text) -> bool)
    ensures c.pattern == [] ==> forall other :: Matches(c, query, params, regex) == Matches(c, query, params, other)
    ensures c.pattern != [] && c.params == [] ==>
              (Matches(c, query, params, regex) <==> regex(c.pattern, query) || Matches(c.(pattern := []), query, params, regex))
  {
    hide NormalizeSQL, HasSuffix, ToUpper;
  }
}
