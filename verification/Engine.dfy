/** Match: custom rules first, then the built-in replies, the stateful store, the
    catalog replies and the generic fallback; one log entry whatever happens. */
module Engines {
  import opened Text
  import opened Rules
  import opened Matcher
  import R = Relational
  import opened StateStores
  import opened RuleEngine

  datatype LogEntry = LogEntry(query: Text, params: seq<Text>, ruleId: Text)

  /** The stages of a match that are tables of fixed replies, and the patterns
      that recognise a statement for the store. */
  datatype Stages = Stages(system: Text -> Option<Rule>, recognise: Text -> Option<R.Statement>,
                           catalog: Text -> Option<Rule>, tag: Text -> Text, regex: Regex)

  datatype Matched = Custom(rule: RuleObject) | Builtin(reply: Rule) | Stateful(live: LiveRule)

  function LoggedParams(params: Params): (r: seq<Text>)
    ensures |r| == |params|
  {
    seq(|params|, i requires 0 <= i < |params| => match params[i] case None => NULL case Some(v) => v)
  }

  function LoggedId(m: Matched, s: Stages, query: Text): Text {
    match m
    case Custom(r) => r.rule.id
    case Builtin(r) => if s.system(query).Some? then SystemId() else r.id
    case Stateful(live) => live.head.id
  }

  function SystemId(): Text {
    "builtin-system"
  }

  function Fallback(tag: Text): Rule {
    Plain("default-fallback", [], [], [], tag)
  }

  /** What a call that no custom rule answers gets, and what it is logged under:
      the system replies come first, then the store if it is enabled and the call
      is a statement, then the catalog replies, then a reply with nothing but a tag. */
  ghost predicate StagesAnswer(m: Matched, id: Text, s: Stages, stateful: bool, query: Text) {
    if s.system(query).Some? then m == Builtin(s.system(query).value) && id == "builtin-system"
    else if stateful && s.recognise(query).Some? then m.Stateful? && id == m.live.head.id
    else if s.catalog(query).Some? then m == Builtin(s.catalog(query).value) && id == s.catalog(query).value.id
    else m == Builtin(Plain("default-fallback", [], [], [], s.tag(query))) && id == "default-fallback"
  }

  /** A call that no custom rule answers is a statement for the store. */
  predicate RunsStatement(s: Stages, stateful: bool, query: Text) {
    s.system(query).None? && stateful && s.recognise(query).Some?
  }

  /** A rule written from a logged call, its parameters as the log shows them,
      accepts that call again exactly when no parameter was the text NULL, which
      the log cannot tell from a null. */
  lemma LoggedCallMatchesIff(params: Params)
    ensures ParamsMatch(LoggedParams(params), params) <==> Some(NULL) !in params
  {
    if Some(NULL) in params {
      var i :| 0 <= i < |params| && params[i] == Some(NULL);
      assert !ParamMatches(LoggedParams(params)[i], params[i]) by {
        NullIsNoWildcard();
      }
    }
  }

  /** A call a rule with parameters accepts has as many, and the log shows them
      as the rule spells them, wildcards aside. */
  lemma AcceptedCallLogs(expected: seq<Text>, params: Params)
    requires expected != [] && ParamsMatch(expected, params)
    ensures |LoggedParams(params)| == |expected|
    ensures forall i :: 0 <= i < |expected| ==>
              expected[i] == "*" || expected[i] == "ANY" || LoggedParams(params)[i] == expected[i]
  {
    forall i | 0 <= i < |expected| && expected[i] != "*" && expected[i] != "ANY"
      ensures LoggedParams(params)[i] == expected[i]
    {
      assert ParamMatches(expected[i], params[i]);
    }
  }

  lemma NullIsNoWildcard()
    ensures NULL != "*" && NULL != "ANY"
  {
    var any: Text := "ANY";
    assert NULL[0] == 'N' && any[0] == 'A';
  }

  class Engine {
    const registry: Registry
    /** The store; a disabled one is skipped, and enabled again it is empty. */
    const store: StateStore
    var stateful: bool
    var logs: seq<LogEntry>

    constructor (registry: Registry, store: StateStore)
      ensures this.registry == registry && this.store == store && stateful && logs == []
    {
      this.registry, this.store, this.stateful, this.logs := registry, store, true, [];
    }

    ghost predicate Valid()
      reads this, registry, registry.backing, store, store.tables.Values
    {
      registry.Valid() && store.Valid()
    }

    method EnableStateful(enable: bool)
      requires Valid()
      modifies this`stateful, store
      ensures Valid() && stateful == enable
      ensures store.Db() == if enable && !old(stateful) then map[] else old(store.Db())
    {
      if enable && !stateful {
        store.Reset();
      }
      stateful := enable;
    }

    method LogQuery(query: Text, params: Params, matchedId: Text)
      modifies this`logs
      ensures logs == old(logs) + [LogEntry(query, LoggedParams(params), matchedId)]
    {
      var paramStrings: seq<Text> := [];
      for i := 0 to |params|
        invariant paramStrings == LoggedParams(params)[..i]
      {
        paramStrings := paramStrings + [if params[i].None? then NULL else params[i].value];
      }
      assert LoggedParams(params)[..|params|] == LoggedParams(params);
      logs := logs + [LogEntry(query, paramStrings, matchedId)];
    }

    /** The first rule of the registry that accepts the query. */
    method FindRule(query: Text, params: Params, regex: Regex) returns (r: RuleObject?)
      requires registry.Valid()
      ensures var i := FirstMatch(registry.rules, query, params, regex);
              r == if i < |registry.rules| then registry.rules[i] else null
    {
      hide Matches;
      for i := 0 to registry.count
        invariant forall j :: 0 <= j < i ==> !Matches(registry.rules[j].condition, query, params, regex)
      {
        r := registry.backing[i];
        if Matches(r.condition, query, params, regex) {
          MatchAt(registry.rules, query, params, regex, i);
          return;
        }
      }
      r := null;
    }

    method RunStatement(query: Text, statement: R.Statement, params: Params) returns (live: LiveRule)
      requires store.Valid()
      modifies this`logs, store, store.tables.Values, store.owner.Keys
      ensures store.Valid() && store.OnlyGrows()
      ensures logs == old(logs) + [LogEntry(query, LoggedParams(params), live.head.id)]
      ensures live.Reading() == R.Answer(old(store.Db()), statement, params)
      ensures store.Db() == R.Exec(old(store.Db()), statement, params)
    {
      hide R.Answer, R.Exec, LoggedParams, StateStore.Home, Contents;
      live := store.Answered(statement, params);
      LogQuery(query, params, live.head.id);
    }

    /** The stages after the custom rules, each of which logs what it answers. */
    method Otherwise(query: Text, params: Params, s: Stages) returns (m: Matched)
      requires store.Valid()
      modifies this`logs, store, store.tables.Values, store.owner.Keys
      ensures store.Valid() && store.OnlyGrows() && !m.Custom?
      ensures logs == old(logs) + [LogEntry(query, LoggedParams(params), LoggedId(m, s, query))]
      ensures m.Stateful? <==> RunsStatement(s, stateful, query)
      ensures StagesAnswer(m, logs[|logs| - 1].ruleId, s, stateful, query)
      ensures m.Stateful? ==> m.live.Reading() == R.Answer(old(store.Db()), s.recognise(query).value, params)
      ensures store.Db() == if m.Stateful? then R.Exec(old(store.Db()), s.recognise(query).value, params) else old(store.Db())
    {
      hide R.Answer, R.Exec, LoggedParams, StateStore.Home, Contents;
      if s.system(query).Some? {
        LogQuery(query, params, SystemId());
        return Builtin(s.system(query).value);
      }
      if stateful && s.recognise(query).Some? {
        var live := RunStatement(query, s.recognise(query).value, params);
        return Stateful(live);
      }
      var reply := if s.catalog(query).Some? then s.catalog(query).value else Fallback(s.tag(query));
      LogQuery(query, params, reply.id);
      m := Builtin(reply);
    }

    /** One log entry on every path, one hit for the rule that answers. */
    method Match(query: Text, params: Params, s: Stages) returns (m: Matched)
      requires Valid()
      modifies this`logs, registry.rules, store, store.tables.Values, store.owner.Keys
      ensures Valid() && store.OnlyGrows()
      ensures logs == old(logs) + [LogEntry(query, LoggedParams(params), LoggedId(m, s, query))]
      ensures var i := FirstMatch(registry.rules, query, params, s.regex);
              if i < |registry.rules| then m == Custom(registry.rules[i]) else !m.Custom?
      ensures forall r: RuleObject :: r in registry.rules ==> r.hits == old(r.hits) + if m == Custom(r) then 1 else 0
      ensures m.Stateful? <==> !m.Custom? && RunsStatement(s, stateful, query)
      ensures if m.Custom? then logs[|logs| - 1].ruleId == m.rule.rule.id
              else StagesAnswer(m, logs[|logs| - 1].ruleId, s, stateful, query)
      ensures m.Stateful? ==> m.live.Reading() == R.Answer(old(store.Db()), s.recognise(query).value, params)
      ensures store.Db() == DbAfter(registry.rules, old(store.Db()), stateful, Ask(query, params), s)
    {
      hide FirstMatch, R.Answer, R.Exec, LoggedParams, StagesAnswer, Contents, RunsStatement, StateStore.Valid;
      hide StateStore.Db;
      var r := FindRule(query, params, s.regex);
      if r != null {
        r.IncrementHits();
        LogQuery(query, params, r.rule.id);
        return Custom(r);
      }
      m := Otherwise(query, params, s);
    }

    /** The executions of all the rules in a list. */
    static ghost function TotalHits(all: seq<RuleObject>): nat
      reads all
    {
      Sum(Hits(all))
    }

    /** The rules of the registry are among the known, pairwise different ones. */
    ghost predicate Known(all: seq<RuleObject>)
      reads registry
    {
      && (forall i, j :: 0 <= i < j < |all| ==> all[i] != all[j])
      && (forall r :: r in registry.rules ==> r in all)
    }

    method ChangeRules(op: Op, spare: nat, ghost all: seq<RuleObject>)
      requires Valid() && Known(all) && Introduces(op, all)
      modifies registry, registry.backing
      ensures Valid() && Known(all)
      ensures registry.rules == ApplyOp(old(registry.rules), op)
      ensures registry.backing == old(registry.backing) || fresh(registry.backing)
      ensures TotalHits(all) == old(TotalHits(all))
    {
      OpIntroduces(registry.rules, op, all);
      ghost var before := Hits(all);
      registry.Apply(op, spare, registry.backing, Taken(registry.rules, registry.backing.Length));
      assert Hits(all) == before;
    }

    method Answer(query: Text, params: Params, s: Stages, ghost all: seq<RuleObject>) returns (ghost custom: nat)
      requires Valid() && Known(all)
      modifies this`logs, registry.rules, store, store.tables.Values, store.owner.Keys
      ensures Valid() && Known(all) && store.OnlyGrows()
      ensures |logs| == |old(logs)| + 1
      ensures TotalHits(all) == old(TotalHits(all)) + custom
      ensures custom == if FirstMatch(registry.rules, query, params, s.regex) < |registry.rules| then 1 else 0
      ensures store.Db() == DbAfter(registry.rules, old(store.Db()), stateful, Ask(query, params), s)
    {
      hide FirstMatch, LoggedId, LoggedParams, StateStore.Home, Contents, Sum, DbAfter;
      ghost var before := Hits(all);
      var m := Match(query, params, s);
      custom := if m.Custom? then 1 else 0;
      assert m.Custom? ==> m.rule in registry.rules;
      OneHit(all, m, before, Hits(all));
    }

    method Do(command: Command, s: Stages, spare: nat, ghost all: seq<RuleObject>)
      requires Valid() && Known(all)
      requires command.Change? ==> Introduces(command.op, all)
      modifies this`logs, registry, registry.backing, (set r | r in all), store, store.tables.Values, store.owner.Keys
      ensures Valid() && Known(all) && store.OnlyGrows()
      ensures registry.rules == RulesAfter(old(registry.rules), [command])
      ensures registry.backing == old(registry.backing) || fresh(registry.backing)
      ensures |logs| == |old(logs)| + if command.Ask? then 1 else 0
      ensures TotalHits(all) == old(TotalHits(all)) + if AnsweredByRule(old(registry.rules), command, s.regex) then 1 else 0
      ensures store.Db() == DbAfter(old(registry.rules), old(store.Db()), stateful, command, s)
    {
      hide FirstMatch, ApplyOp, StateStore.Home, Contents;
      assert [command][..0] == [];
      assert RulesAfter(registry.rules, []) == registry.rules;
      if command.Change? {
        ChangeRules(command.op, spare, all);
      } else {
        assert forall r :: r in registry.rules ==> r in all;
        ghost var custom := Answer(command.query, command.params, s, all);
      }
    }

    /** Conservation: over any run of matches mixed with registry changes,
        however the arrays grow, the log grows by one entry a match and the hit
        counters by one for each match a custom rule answered. The store has run
        exactly the statements that neither a rule nor the system stage took. */
    method Serve(commands: seq<Command>, s: Stages, spares: nat -> nat, ghost all: seq<RuleObject>)
      requires Valid() && Known(all)
      requires forall i :: 0 <= i < |commands| && commands[i].Change? ==> Introduces(commands[i].op, all)
      modifies this`logs, registry, registry.backing, (set r | r in all), store, store.tables.Values, store.owner.Keys
      ensures Valid()
      ensures registry.rules == RulesAfter(old(registry.rules), commands)
      ensures |logs| == |old(logs)| + Asks(commands)
      ensures TotalHits(all) == old(TotalHits(all)) + CustomAnswers(old(registry.rules), commands, s.regex)
      ensures store.Db() == DbAfterAll(old(registry.rules), old(store.Db()), stateful, commands, s)
    {
      hide FirstMatch, ApplyOp, AnsweredByRule, StateStore.Home, Contents, Sum, Hits, DbAfter, StateStore.Valid;
      hide StateStore.Db;
      ghost var rules, db := registry.rules, store.Db();
      for i := 0 to |commands|
        invariant Valid() && Known(all) && store.OnlyGrows()
        invariant registry.rules == RulesAfter(rules, commands[..i])
        invariant registry.backing == old(registry.backing) || fresh(registry.backing)
        invariant |logs| == |old(logs)| + Asks(commands[..i])
        invariant TotalHits(all) == old(TotalHits(all)) + CustomAnswers(rules, commands[..i], s.regex)
        invariant store.Db() == DbAfterAll(rules, db, stateful, commands[..i], s)
      {
        assert commands[..i + 1][..i] == commands[..i];
        OneCommand(registry.rules, commands[i]);
        Do(commands[i], s, spares(i), all);
      }
      assert commands[..|commands|] == commands;
    }
  }

  ghost function Hits(all: seq<RuleObject>): (h: seq<nat>)
    reads all
    ensures |h| == |all| && forall i :: 0 <= i < |h| ==> h[i] == all[i].hits
  {
    if all == [] then [] else [all[0].hits] + Hits(all[1..])
  }

  function Sum(xs: seq<nat>): nat {
    if xs == [] then 0 else xs[0] + Sum(xs[1..])
  }

  lemma {:induction false} SumBump(before: seq<nat>, after: seq<nat>, k: nat)
    requires |after| == |before| && k < |before|
    requires forall i :: 0 <= i < |before| ==> after[i] == before[i] + if i == k then 1 else 0
    ensures Sum(after) == Sum(before) + 1
  {
    if k > 0 {
      SumBump(before[1..], after[1..], k - 1);
    } else {
      assert after[1..] == before[1..];
    }
  }

  /** One more hit for the rule that answered, if a rule did, is one more in all. */
  lemma OneHit(all: seq<RuleObject>, m: Matched, before: seq<nat>, after: seq<nat>)
    requires |before| == |after| == |all| && forall i, j :: 0 <= i < j < |all| ==> all[i] != all[j]
    requires m.Custom? ==> m.rule in all
    requires forall i :: 0 <= i < |all| ==> after[i] == before[i] + if m == Custom(all[i]) then 1 else 0
    ensures Sum(after) == Sum(before) + if m.Custom? then 1 else 0
  {
    if m.Custom? {
      var k :| 0 <= k < |all| && all[k] == m.rule;
      SumBump(before, after, k);
    } else {
      assert after == before;
    }
  }

  datatype Command = Change(op: Op) | Ask(query: Text, params: Params)

  function Asks(commands: seq<Command>): nat {
    if commands == [] then 0
    else Asks(commands[..|commands| - 1]) + if commands[|commands| - 1].Ask? then 1 else 0
  }

  /** The rules of the registry after a run of commands. */
  function RulesAfter(rules: seq<RuleObject>, commands: seq<Command>): seq<RuleObject> {
    if commands == [] then rules
    else
      var before := RulesAfter(rules, commands[..|commands| - 1]);
      match commands[|commands| - 1]
      case Change(op) => ApplyOp(before, op)
      case Ask(_, _) => before
  }

  lemma OneCommand(rules: seq<RuleObject>, command: Command)
    ensures RulesAfter(rules, [command]) == if command.Change? then ApplyOp(rules, command.op) else rules
  {
    assert [command][..0] == [];
  }

  /** A match for which one of these rules is first. */
  predicate AnsweredByRule(rules: seq<RuleObject>, command: Command, regex: Regex) {
    command.Ask? && FirstMatch(rules, command.query, command.params, regex) < |rules|
  }

  /** How many of the matches a custom rule answers, each with the registry as
      it is by then. */
  function CustomAnswers(rules: seq<RuleObject>, commands: seq<Command>, regex: Regex): nat {
    if commands == [] then 0
    else
      var before := commands[..|commands| - 1];
      CustomAnswers(rules, before, regex) +
      if AnsweredByRule(RulesAfter(rules, before), commands[|commands| - 1], regex) then 1 else 0
  }

  /** The store after a command: changed only by a statement that reaches it. */
  ghost function DbAfter(rules: seq<RuleObject>, db: R.Database, stateful: bool, command: Command, s: Stages): R.Database {
    if command.Ask? && !AnsweredByRule(rules, command, s.regex) && RunsStatement(s, stateful, command.query) then
      R.Exec(db, s.recognise(command.query).value, command.params)
    else db
  }

  ghost function DbAfterAll(rules: seq<RuleObject>, db: R.Database, stateful: bool, commands: seq<Command>, s: Stages): R.Database {
    if commands == [] then db
    else
      var before := commands[..|commands| - 1];
      DbAfter(RulesAfter(rules, before), DbAfterAll(rules, db, stateful, before, s), stateful, commands[|commands| - 1], s)
  }

  /** A rule that an operation brings in is among the known ones. */
  ghost predicate Introduces(op: Op, all: seq<RuleObject>) {
    match op
    case Add(r) => r in all
    case Prepend(r) => r in all
    case _ => true
  }

  lemma OpIntroduces(rules: seq<RuleObject>, op: Op, all: seq<RuleObject>)
    requires Introduces(op, all) && forall r :: r in rules ==> r in all
    ensures forall r :: r in ApplyOp(rules, op) ==> r in all
  {
  }
}
