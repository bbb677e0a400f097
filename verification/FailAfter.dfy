/** A rule that fails after its first n hits, shared by clients that count a hit
    and check the counter in separate steps. */
module FailAfter {
  import opened Text
  import opened Rules

  /** A client either matches, counting a hit, for an execution or for a Describe
      which checks nothing, or makes the check of an execution it has begun. */
  datatype Event = Match(client: nat, executes: bool) | Check(client: nat)

  datatype State = State(hits: nat, pending: set<nat>, results: seq<bool>)

  const IDLE := State(0, {}, [])

  /** A client does one thing at a time. */
  predicate Enabled(s: State, e: Event) {
    match e
    case Match(c, _) => c !in s.pending
    case Check(c) => c in s.pending
  }

  function Step(s: State, e: Event, rule: Rule): State {
    match e
    case Match(c, executes) => s.(hits := s.hits + 1, pending := if executes then s.pending + {c} else s.pending)
    case Check(c) => s.(pending := s.pending - {c}, results := s.results + [!Fails(rule, s.hits)])
  }

  function Run(events: seq<Event>, rule: Rule): State {
    if events == [] then IDLE else Step(Run(events[..|events| - 1], rule), events[|events| - 1], rule)
  }

  ghost predicate Legal(events: seq<Event>, rule: Rule) {
    forall i :: 0 <= i < |events| ==> Enabled(Run(events[..i], rule), events[i])
  }

  function Successes(results: seq<bool>): nat {
    if results == [] then 0 else Successes(results[..|results| - 1]) + if results[|results| - 1] then 1 else 0
  }

  lemma {:induction false} SuccessesBound(results: seq<bool>)
    ensures Successes(results) <= |results|
  {
    if results != [] {
      SuccessesBound(results[..|results| - 1]);
    }
  }

  ghost predicate Sound(s: State, n: nat) {
    && |s.results| + |s.pending| <= s.hits
    && Successes(s.results) <= n
    && (forall i :: 0 <= i < |s.results| && !s.results[i] ==> n < s.hits)
    && (forall i, j :: 0 <= i < j < |s.results| && !s.results[i] ==> !s.results[j])
  }

  lemma StepKeepsSound(s: State, e: Event, rule: Rule, n: nat)
    requires Sound(s, n) && Enabled(s, e) && rule.error.Some? && rule.failAfterN == n > 0
    ensures Sound(Step(s, e, rule), n)
  {
    var t := Step(s, e, rule);
    if e.Check? {
      assert |t.pending| == |s.pending| - 1;
      assert t.results[..|t.results| - 1] == s.results;
      SuccessesBound(s.results);
    }
  }

  /** In every interleaving of clients at most n executions succeed, and once
      one has failed every later check fails. */
  lemma {:induction false} AtMostN(events: seq<Event>, rule: Rule, n: nat)
    requires Legal(events, rule) && rule.error.Some? && rule.failAfterN == n > 0
    ensures Sound(Run(events, rule), n)
  {
    if events != [] {
      var m := |events| - 1;
      assert forall i :: 0 <= i < m ==> events[..m][..i] == events[..i];
      AtMostN(events[..m], rule, n);
      StepKeepsSound(Run(events[..m], rule), events[m], rule, n);
    }
  }

  /** Clients taking turns, each matching and then checking; no Describe. */
  function Turns(clients: seq<nat>): seq<Event> {
    if clients == [] then []
    else Turns(clients[..|clients| - 1]) + [Match(clients[|clients| - 1], true), Check(clients[|clients| - 1])]
  }

  lemma RunTwo(events: seq<Event>, a: Event, b: Event, rule: Rule)
    ensures Run(events + [a, b], rule) == Step(Step(Run(events, rule), a, rule), b, rule)
  {
    var all := events + [a, b];
    assert all[..|all| - 1] == events + [a];
    assert (events + [a])[..|events|] == events;
  }

  lemma LegalTwo(events: seq<Event>, c: nat, rule: Rule)
    requires Legal(events, rule) && Run(events, rule).pending == {}
    ensures Legal(events + [Match(c, true), Check(c)], rule)
  {
    var all := events + [Match(c, true), Check(c)];
    var n := |events|;
    assert all[..n] == events && all[..n + 1] == events + [Match(c, true)];
    assert (events + [Match(c, true)])[..n] == events;
    forall i | 0 <= i < |all|
      ensures Enabled(Run(all[..i], rule), all[i])
    {
      if i < n {
        assert all[..i] == events[..i];
      }
    }
  }

  /** One at a time with no Describe, exactly the first n executions succeed. */
  lemma {:induction false} FirstNSucceed(clients: seq<nat>, rule: Rule, n: nat)
    requires rule.error.Some? && rule.failAfterN == n > 0
    ensures Legal(Turns(clients), rule)
    ensures var s := Run(Turns(clients), rule);
            && s.hits == |clients| && s.pending == {} && |s.results| == |clients|
            && forall i :: 0 <= i < |clients| ==> (s.results[i] <==> i < n)
  {
    if clients != [] {
      var m := |clients| - 1;
      FirstNSucceed(clients[..m], rule, n);
      RunTwo(Turns(clients[..m]), Match(clients[m], true), Check(clients[m]), rule);
      LegalTwo(Turns(clients[..m]), clients[m], rule);
    }
  }

  function Matches(events: seq<Event>): nat {
    if events == [] then 0 else Matches(events[..|events| - 1]) + if events[|events| - 1].Match? then 1 else 0
  }

  lemma {:induction false} HitsAreMatches(events: seq<Event>, rule: Rule)
    ensures Run(events, rule).hits == Matches(events)
  {
    if events != [] {
      HitsAreMatches(events[..|events| - 1], rule);
    }
  }

  /** Exactly which executions succeed: those whose check comes while no more
      than n matches, executions and Describes alike, have been counted. */
  lemma CheckOutcome(events: seq<Event>, client: nat, rule: Rule)
    requires rule.error.Some? && rule.failAfterN > 0
    ensures var s, t := Run(events, rule), Run(events + [Check(client)], rule);
            t.results == s.results + [Matches(events) <= rule.failAfterN]
  {
    assert (events + [Check(client)])[..|events|] == events;
    HitsAreMatches(events, rule);
  }
}
