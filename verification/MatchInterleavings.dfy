/** Many clients match at once: taking the list, each look, the hit and the log
    entry are separate steps, and between any two of them others match and change
    the registry. */
module MatchInterleavings {
  import opened Text
  import opened Matcher
  import opened RuleEngine

  /** What a client asks, the registry it found when it came, and whether no rule
      was deleted while it searched. */
  datatype Call = Call(query: Text, params: Params, start: seq<RuleObject>, calm: bool)

  /** Where a match has got to: looking at place i of its header, with a rule to
      count a hit for, with a hit counted, or with no rule of its own. */
  datatype Client =
    | Looking(call: Call, seen: Seen, i: nat)
    | Chosen(call: Call, rule: RuleObject)
    | Counted(call: Call, rule: RuleObject)
    | Missed(call: Call)

  /** A log entry with the custom rule that answered; null stands for what the
      later stages gave. */
  datatype Entry = Entry(call: Call, rule: RuleObject?)

  datatype State = State(rules: seq<RuleObject>, capacity: nat, clients: map<nat, Client>,
                         hits: multiset<RuleObject>, log: seq<Entry>, begun: nat)

  datatype Event =
    | Begin(c: nat, query: Text, params: Params)
    | Look(c: nat)
    | Hit(c: nat)
    | Log(c: nat)
    | Change(op: Op, capacity: nat)

  function Start(rules: seq<RuleObject>, capacity: nat): State {
    State(rules, capacity, map[], multiset{}, [], 0)
  }

  predicate Enabled(s: State, e: Event) {
    match e
    case Begin(c, _, _) => c !in s.clients
    case Look(c) => c in s.clients && s.clients[c].Looking?
    case Hit(c) => c in s.clients && s.clients[c].Chosen?
    case Log(c) => c in s.clients && (s.clients[c].Counted? || s.clients[c].Missed?)
    case Change(_, _) => true
  }

  function LookOnce(cl: Client, regex: Regex): Client
    requires cl.Looking?
  {
    if cl.i >= |cl.seen.view| then Missed(cl.call)
    else
      var r := cl.seen.view[cl.i];
      if Matches(r.condition, cl.call.query, cl.call.params, regex) then Chosen(cl.call, r) else cl.(i := cl.i + 1)
  }

  /** A change of the registry moves what lies under a header. */
  function Disturbed(cl: Client, op: Op): Client {
    if cl.Looking? then
      cl.(seen := OnHeader(cl.seen, op), call := cl.call.(calm := cl.call.calm && !op.Delete?))
    else cl
  }

  /** The array an operation leaves the registry with: a new one when the slice
      has to grow, and as big as the run-time makes it. */
  function CapacityAfter(s: State, op: Op, grown: nat): nat {
    match op
    case Add(_) => if |s.rules| < s.capacity then s.capacity else |s.rules| + 1 + grown
    case Prepend(_) => |s.rules| + 1 + grown
    case Delete(_) => s.capacity
    case Clear => 0
  }

  function Step(s: State, e: Event, regex: Regex): State
    requires Enabled(s, e)
  {
    match e
    case Begin(c, query, params) =>
      var come := Looking(Call(query, params, s.rules, true), Taken(s.rules, s.capacity), 0);
      s.(clients := s.clients[c := come], begun := s.begun + 1)
    case Look(c) => s.(clients := s.clients[c := LookOnce(s.clients[c], regex)])
    case Hit(c) =>
      var cl := s.clients[c];
      s.(clients := s.clients[c := Counted(cl.call, cl.rule)], hits := s.hits + multiset{cl.rule})
    case Log(c) =>
      var cl := s.clients[c];
      s.(clients := s.clients - {c}, log := s.log + [Entry(cl.call, if cl.Counted? then cl.rule else null)])
    case Change(op, grown) =>
      s.(rules := ApplyOp(s.rules, op), capacity := CapacityAfter(s, op, grown),
         clients := map c | c in s.clients :: Disturbed(s.clients[c], op))
  }

  ghost predicate Reaches(s: State, events: seq<Event>, t: State, regex: Regex)
    decreases |events|
  {
    if events == [] then s == t
    else Enabled(s, events[0]) && Reaches(Step(s, events[0], regex), events[1..], t, regex)
  }

  // ---------- Conservation ----------

  /** The clients that have counted a hit of this rule and not logged it yet. */
  function Owing(clients: map<nat, Client>, r: RuleObject): set<nat> {
    set c | c in clients && clients[c].Counted? && clients[c].rule == r
  }

  function Logged(log: seq<Entry>, r: RuleObject): nat {
    if log == [] then 0 else Logged(log[..|log| - 1], r) + if log[|log| - 1].rule == r then 1 else 0
  }

  /** One log entry for each match that is over, and one hit of the rule for each
      match that has logged it or is about to. */
  ghost predicate Balanced(s: State, r: RuleObject) {
    && |s.log| + |s.clients| == s.begun
    && s.hits[r] == Logged(s.log, r) + |Owing(s.clients, r)|
  }

  lemma OwingPut(clients: map<nat, Client>, c: nat, cl: Client, r: RuleObject)
    requires c in clients ==> !(clients[c].Counted? && clients[c].rule == r)
    ensures |clients[c := cl]| == |clients| + if c in clients then 0 else 1
    ensures |Owing(clients[c := cl], r)| == |Owing(clients, r)| + if cl.Counted? && cl.rule == r then 1 else 0
  {
    KeysPut(clients, c, cl);
    var before, after := Owing(clients, r), Owing(clients[c := cl], r);
    forall x: nat
      ensures x in after <==> x in before || (x == c && cl.Counted? && cl.rule == r)
    {
      OwingHas(clients, r, x);
      OwingHas(clients[c := cl], r, x);
    }
    OwingHas(clients, r, c);
    hide Owing;
    if cl.Counted? && cl.rule == r {
      assert after == before + {c};
    } else {
      assert after == before;
    }
  }

  lemma OwingHas(clients: map<nat, Client>, r: RuleObject, c: nat)
    ensures c in Owing(clients, r) <==> c in clients && clients[c].Counted? && clients[c].rule == r
  {
  }

  lemma KeysPut(clients: map<nat, Client>, c: nat, cl: Client)
    ensures |clients[c := cl]| == |clients| + if c in clients then 0 else 1
  {
    var after := clients[c := cl];
    if c in clients {
      assert after.Keys == clients.Keys;
    } else {
      assert after.Keys == clients.Keys + {c};
    }
    assert |after| == |after.Keys| && |clients| == |clients.Keys|;
  }

  lemma OwingTaken(clients: map<nat, Client>, c: nat, r: RuleObject)
    requires c in clients
    ensures |clients - {c}| == |clients| - 1
    ensures |Owing(clients - {c}, r)| == |Owing(clients, r)| - if clients[c].Counted? && clients[c].rule == r then 1 else 0
  {
    var after := clients - {c};
    assert after.Keys == clients.Keys - {c};
    assert Owing(after, r) == Owing(clients, r) - {c};
  }

  lemma StepBalances(s: State, e: Event, r: RuleObject, regex: Regex)
    requires Balanced(s, r) && Enabled(s, e)
    ensures Balanced(Step(s, e, regex), r)
  {
    hide LookOnce, Owing, ApplyOp, OnHeader;
    var t := Step(s, e, regex);
    match e
    case Begin(c, _, _) => OwingPut(s.clients, c, t.clients[c], r);
    case Look(c) =>
      LookCountsNothing(s.clients[c], regex);
      OwingPut(s.clients, c, t.clients[c], r);
    case Hit(c) => OwingPut(s.clients, c, t.clients[c], r);
    case Log(c) =>
      OwingTaken(s.clients, c, r);
      assert t.log[..|t.log| - 1] == s.log;
    case Change(op, _) =>
      assert t.clients.Keys == s.clients.Keys;
      assert |t.clients| == |s.clients|;
      OwingDisturbed(s.clients, t.clients, op, r);
  }

  lemma LookCountsNothing(cl: Client, regex: Regex)
    requires cl.Looking?
    ensures !LookOnce(cl, regex).Counted?
  {
  }

  lemma OwingDisturbed(clients: map<nat, Client>, after: map<nat, Client>, op: Op, r: RuleObject)
    requires after.Keys == clients.Keys && forall c :: c in clients ==> after[c] == Disturbed(clients[c], op)
    ensures Owing(after, r) == Owing(clients, r)
  {
    hide OnHeader;
  }

  /** In every interleaving the hits of a rule are its log entries and the
      entries still due; when no client is at work, the hits of every rule are the
      log entries that name it, and every match has its entry. */
  lemma HitsAreLogged(rules: seq<RuleObject>, capacity: nat, events: seq<Event>, t: State, r: RuleObject, regex: Regex)
    requires Reaches(Start(rules, capacity), events, t, regex)
    ensures t.hits[r] == Logged(t.log, r) + |Owing(t.clients, r)| && |t.log| + |t.clients| == t.begun
    ensures t.clients == map[] ==> t.hits[r] == Logged(t.log, r) && |t.log| == t.begun
  {
    hide Reaches, Step;
    assert Owing(map[], r) == {};
    RunBalances(Start(rules, capacity), events, t, r, regex);
  }

  lemma {:induction false} RunBalances(s: State, events: seq<Event>, t: State, r: RuleObject, regex: Regex)
    requires Balanced(s, r) && Reaches(s, events, t, regex)
    ensures Balanced(t, r)
    decreases |events|
  {
    hide Step, Balanced, Enabled;
    if events != [] {
      StepBalances(s, events[0], r, regex);
      RunBalances(Step(s, events[0], regex), events[1..], t, r, regex);
    }
  }

  // ---------- What a match answers ----------

  /** The rule accepts the call, and if nothing was deleted meanwhile it is the
      first of the registry as it was when the client came. */
  ghost predicate RightAnswer(call: Call, r: RuleObject?, regex: Regex) {
    && (r != null ==> Matches(r.condition, call.query, call.params, regex))
    && (call.calm ==> r == Found(call.start, call.query, call.params, regex))
  }

  /** The client's header is one into the arrays of this registry, and as long as
      nothing was deleted it reads what it read at the start. */
  ghost predicate RightLook(cl: Client, rules: seq<RuleObject>, capacity: nat, regex: Regex)
    requires cl.Looking?
  {
    && cl.seen.rules == rules && (cl.seen.live ==> cl.seen.capacity == capacity)
    && (cl.call.calm ==>
         && cl.seen.view == cl.call.start && cl.i <= |cl.call.start|
         && (cl.seen.live ==> |cl.seen.view| <= |rules|)
         && forall j :: 0 <= j < cl.i ==> !Matches(cl.call.start[j].condition, cl.call.query, cl.call.params, regex))
  }

  ghost predicate RightClient(cl: Client, rules: seq<RuleObject>, capacity: nat, regex: Regex) {
    match cl
    case Looking(_, _, _) => RightLook(cl, rules, capacity, regex)
    case Chosen(call, r) => RightAnswer(call, r, regex)
    case Counted(call, r) => RightAnswer(call, r, regex)
    case Missed(call) => RightAnswer(call, null, regex)
  }

  ghost predicate Inv(s: State, regex: Regex) {
    && |s.rules| <= s.capacity
    && (forall c :: c in s.clients ==> RightClient(s.clients[c], s.rules, s.capacity, regex))
    && forall i :: 0 <= i < |s.log| ==> RightAnswer(s.log[i].call, s.log[i].rule, regex)
  }

  lemma LookIsRight(cl: Client, rules: seq<RuleObject>, capacity: nat, regex: Regex)
    requires cl.Looking? && RightLook(cl, rules, capacity, regex)
    ensures RightClient(LookOnce(cl, regex), rules, capacity, regex)
  {
    hide Matches, Found;
    if cl.call.calm {
      if cl.i >= |cl.seen.view| {
        NoneFound(cl.call.start, cl.call.query, cl.call.params, regex);
      } else if Matches(cl.seen.view[cl.i].condition, cl.call.query, cl.call.params, regex) {
        FoundThere(cl.call.start, cl.call.query, cl.call.params, regex, cl.i);
      }
    }
  }

  lemma DisturbedIsRight(cl: Client, s: State, t: State, op: Op, grown: nat, regex: Regex)
    requires RightClient(cl, s.rules, s.capacity, regex) && |s.rules| <= s.capacity
    requires t.rules == ApplyOp(s.rules, op) && t.capacity == CapacityAfter(s, op, grown)
    ensures RightClient(Disturbed(cl, op), t.rules, t.capacity, regex)
  {
    hide Matches, Found, IndexOfId;
  }

  lemma StepKeepsInv(s: State, e: Event, regex: Regex)
    requires Inv(s, regex) && Enabled(s, e)
    ensures Inv(Step(s, e, regex), regex)
  {
    hide LookOnce, Disturbed, Matches, Found, RightAnswer, RightLook, ApplyOp;
    var t := Step(s, e, regex);
    match e
    case Begin(c, query, params) => TakenIsRight(s, query, params, regex);
    case Look(c) => LookIsRight(s.clients[c], s.rules, s.capacity, regex);
    case Hit(c) =>
    case Log(c) =>
    case Change(op, grown) =>
      CapacityHolds(s, op, grown);
      forall c | c in t.clients
        ensures RightClient(t.clients[c], t.rules, t.capacity, regex)
      {
        DisturbedIsRight(s.clients[c], s, t, op, grown, regex);
      }
  }

  lemma TakenIsRight(s: State, query: Text, params: Params, regex: Regex)
    requires |s.rules| <= s.capacity
    ensures RightLook(Looking(Call(query, params, s.rules, true), Taken(s.rules, s.capacity), 0), s.rules, s.capacity, regex)
  {
  }

  lemma CapacityHolds(s: State, op: Op, grown: nat)
    requires |s.rules| <= s.capacity
    ensures |ApplyOp(s.rules, op)| <= CapacityAfter(s, op, grown)
  {
    hide IndexOfId;
  }

  lemma {:induction false} RunKeepsInv(s: State, events: seq<Event>, t: State, regex: Regex)
    requires Inv(s, regex) && Reaches(s, events, t, regex)
    ensures Inv(t, regex)
    decreases |events|
  {
    hide Step, Inv, Enabled;
    if events != [] {
      StepKeepsInv(s, events[0], regex);
      RunKeepsInv(Step(s, events[0], regex), events[1..], t, regex);
    }
  }

  // ---------- When it answers that ----------

  /** The lists the registry is during a run. */
  ghost function Registries(rules: seq<RuleObject>, events: seq<Event>): set<seq<RuleObject>>
    decreases |events|
  {
    if events == [] then {rules}
    else {rules} + Registries(if events[0].Change? then ApplyOp(rules, events[0].op) else rules, events[1..])
  }

  /** Every client, at work or done, found one of these lists when it came. */
  ghost predicate CameTo(s: State, past: set<seq<RuleObject>>) {
    && (forall c :: c in s.clients ==> s.clients[c].call.start in past)
    && forall i :: 0 <= i < |s.log| ==> s.log[i].call.start in past
  }

  lemma StepKeepsStarts(s: State, e: Event, past: set<seq<RuleObject>>, regex: Regex)
    requires CameTo(s, past) && s.rules in past && Enabled(s, e)
    ensures CameTo(Step(s, e, regex), past)
  {
    hide Matches, OnHeader, ApplyOp;
  }

  lemma {:induction false} RunKeepsStarts(s: State, events: seq<Event>, t: State, past: set<seq<RuleObject>>, regex: Regex)
    requires CameTo(s, past) && Reaches(s, events, t, regex) && Registries(s.rules, events) <= past
    ensures CameTo(t, past)
    decreases |events|
  {
    hide Step, CameTo, Enabled;
    assert s.rules in Registries(s.rules, events);
    if events != [] {
      StepKeepsStarts(s, events[0], past, regex);
      StepRules(s, events[0], regex);
      RunKeepsStarts(Step(s, events[0], regex), events[1..], t, past, regex);
    }
  }

  lemma StepRules(s: State, e: Event, regex: Regex)
    requires Enabled(s, e)
    ensures Step(s, e, regex).rules == if e.Change? then ApplyOp(s.rules, e.op) else s.rules
  {
    hide ApplyOp;
  }

  /** In every interleaving a logged match names a rule that accepts its call; one
      during whose search nothing was deleted answers as if it had been made in one
      step, on one of the lists the registry was during the run. */
  lemma CalmMatchIsAtomic(rules: seq<RuleObject>, capacity: nat, events: seq<Event>, t: State, i: nat, regex: Regex)
    requires |rules| <= capacity && Reaches(Start(rules, capacity), events, t, regex) && i < |t.log|
    ensures var e := t.log[i];
            && (e.rule != null ==> Matches(e.rule.condition, e.call.query, e.call.params, regex))
            && e.call.start in Registries(rules, events)
            && (e.call.calm ==> e.rule == Found(e.call.start, e.call.query, e.call.params, regex))
  {
    hide Reaches, Matches, Found, Step, Registries;
    RunKeepsInv(Start(rules, capacity), events, t, regex);
    RunKeepsStarts(Start(rules, capacity), events, t, Registries(rules, events), regex);
    assert RightAnswer(t.log[i].call, t.log[i].rule, regex);
  }
}
