/** The store under concurrent statements: every critical section is one step,
    SELECT is two, and a dropped or replaced table object lives on for whoever
    still holds it. */
module Interleavings {
  import opened Text
  import opened Rules
  import opened Relational

  type Address = nat

  /** The table map, and every table object ever made whether or not a name
      still leads to it. */
  datatype Memory = Memory(names: map<Text, Address>, objects: map<Address, Table>)

  ghost predicate Sound(m: Memory) {
    && (forall k :: k in m.names ==> m.names[k] in m.objects)
    && (forall k, l :: k in m.names && l in m.names && m.names[k] == m.names[l] ==> k == l)
  }

  ghost function View(m: Memory): Database {
    map k | k in m.names && m.names[k] in m.objects :: m.objects[m.names[k]]
  }

  /** What a statement's effect does to the objects; `spare` is where a new
      table object goes. */
  ghost function Apply(m: Memory, e: Effect, name: Text, spare: Address): Memory {
    match e
    case Keep => m
    case Attach(t) => Memory(m.names[name := spare], m.objects[spare := t])
    case Overwrite(t) => if name in m.names then m.(objects := m.objects[m.names[name] := t]) else m
    case Detach => m.(names := m.names - {name})
    case DetachAll => m.(names := map[])
  }

  ghost function Write(m: Memory, call: Call, spare: Address): Memory {
    var s := call.statement;
    Apply(m, EffectOf(View(m), s, call.params), if s.Reset? then [] else s.Target(), spare)
  }

  lemma ApplyShows(m: Memory, e: Effect, name: Text, spare: Address)
    requires Sound(m) && spare !in m.objects
    ensures Sound(Apply(m, e, name, spare))
    ensures var db := View(m);
            View(Apply(m, e, name, spare)) ==
            match e
            case Keep => db
            case Attach(t) => db[name := t]
            case Overwrite(t) => if name in db then db[name := t] else db
            case Detach => db - {name}
            case DetachAll => map[]
  {
  }

  /** The object-level step shows as the relational step. */
  lemma WriteRefinesExec(m: Memory, call: Call, spare: Address)
    requires Sound(m) && spare !in m.objects
    ensures Sound(Write(m, call, spare))
    ensures View(Write(m, call, spare)) == Exec(View(m), call.statement, call.params)
  {
    hide EffectOf, Apply, View, Relational.EmptyTable;
    var s := call.statement;
    EffectFits(View(m), s, call.params);
    ApplyShows(m, EffectOf(View(m), s, call.params), if s.Reset? then [] else s.Target(), spare);
  }

  lemma EffectFits(db: Database, s: Statement, params: Params)
    ensures EffectOf(db, s, params).Overwrite? ==> !s.Reset? && s.Target() in db
    ensures s.Reset? <==> EffectOf(db, s, params).DetachAll?
  {
  }

  /** A statement never writes an object no name leads to, never makes such an
      object reachable again, and never writes an object it takes out. */
  lemma DetachedStaysFrozen(m: Memory, call: Call, spare: Address, name: Text, a: Address)
    requires Sound(m) && spare !in m.objects && a in m.objects
    requires forall k :: k in m.names && m.names[k] == a ==> k == name
    ensures var after := Write(m, call, spare);
            && a in after.objects
            && (forall k :: k in after.names && after.names[k] == a ==> k == name && k in m.names && m.names[k] == a)
            && (!(name in after.names && after.names[name] == a) ==> after.objects[a] == m.objects[a])
  {
    hide EffectOf;
  }

  // ---------- Threads ----------

  datatype Event =
    | Done(call: Call, spare: Address)
    | Begin(thread: nat, select: Statement, params: Params)
    | End(thread: nat)

  /** A SELECT between its two critical sections, with the object it found. */
  datatype Pending = Pending(select: Statement, params: Params, table: Option<Address>)

  datatype State = State(memory: Memory, pending: map<nat, Pending>)

  ghost predicate Step(s: State, e: Event, s': State) {
    match e
    case Done(call, spare) =>
      && !call.statement.Select? && spare !in s.memory.objects
      && s' == s.(memory := Write(s.memory, call, spare))
    case Begin(t, select, params) =>
      && select.Select? && t !in s.pending
      && var names := s.memory.names;
         var found := if select.Target() in names then Some(names[select.Target()]) else None;
         s' == s.(pending := s.pending[t := Pending(select, params, found)])
    case End(t) =>
      && t in s.pending
      && s' == s.(pending := s.pending - {t})
  }

  ghost predicate Run(states: seq<State>, events: seq<Event>) {
    && |states| == |events| + 1 && Sound(states[0].memory)
    && (forall i :: 0 <= i < |events| ==> Step(states[i], events[i], states[i + 1]))
  }

  lemma {:induction false} StaysSound(states: seq<State>, events: seq<Event>, n: nat)
    requires Run(states, events) && n < |states|
    ensures Sound(states[n].memory)
  {
    hide Sound, Write;
    if n > 0 {
      StaysSound(states, events, n - 1);
      assert Step(states[n - 1], events[n - 1], states[n]);
      if events[n - 1].Done? {
        WriteRefinesExec(states[n - 1].memory, events[n - 1].call, events[n - 1].spare);
      }
    }
  }

  /** What a pending SELECT returns when its second critical section runs now. */
  ghost function Returned(s: State, t: nat): Rule
    requires t in s.pending && s.pending[t].select.Select?
    requires s.pending[t].table.Some? ==> s.pending[t].table.value in s.memory.objects
  {
    var p := s.pending[t];
    match p.table
    case None => Missing(p.select.Target())
    case Some(a) => SelectFrom(p.select.cols, p.select.where, s.memory.objects[a], p.params)
  }

  /** Thread t is between its Begin at event i and its End, which has not
      happened before event n. */
  ghost predicate InFlight(events: seq<Event>, t: nat, i: nat, n: nat) {
    && i < n <= |events|
    && events[i].Begin? && events[i].thread == t && events[i].select.Select?
    && forall k :: i < k < n ==> events[k] != End(t)
  }

  /** The object a pending SELECT holds carries, at state n, what the store held
      under the name in some state k since the lookup. */
  lemma {:induction false} HeldTable(states: seq<State>, events: seq<Event>, t: nat, i: nat, n: nat) returns (k: nat)
    requires Run(states, events) && InFlight(events, t, i, n)
    requires events[i].select.Target() in states[i].memory.names
    ensures i <= k <= n
    ensures var name := events[i].select.Target();
            var a := states[i].memory.names[name];
            && t in states[n].pending
            && states[n].pending[t] == Pending(events[i].select, events[i].params, Some(a))
            && a in states[n].memory.objects
            && (forall l :: l in states[n].memory.names && states[n].memory.names[l] == a ==> l == name && k == n)
            && name in View(states[k].memory)
            && View(states[k].memory)[name] == states[n].memory.objects[a]
    decreases n
  {
    hide Sound, Step, View;
    var name := events[i].select.Target();
    var a := states[i].memory.names[name];
    StaysSound(states, events, n - 1);
    StaysSound(states, events, n);
    assert Step(states[n - 1], events[n - 1], states[n]);
    if n == i + 1 {
      HeldFirst(states[i], events[i], states[n]);
      k := n;
    } else {
      k := HeldTable(states, events, t, i, n - 1);
      HeldOn(states[n - 1], events[n - 1], states[n], t, name, a);
      var names := states[n].memory.names;
      if name in names && names[name] == a {
        k := n;
      }
    }
  }

  lemma HeldFirst(s: State, e: Event, s': State)
    requires Sound(s.memory) && e.Begin? && e.select.Select? && Step(s, e, s') && e.select.Target() in s.memory.names
    ensures var name := e.select.Target();
            var a := s.memory.names[name];
            && e.thread in s'.pending && s'.pending[e.thread] == Pending(e.select, e.params, Some(a))
            && a in s'.memory.objects
            && (forall l :: l in s'.memory.names && s'.memory.names[l] == a ==> l == name)
            && name in View(s'.memory) && View(s'.memory)[name] == s'.memory.objects[a]
  {
  }

  /** One step later the held object is the one of the name still, or it is as
      it was. */
  lemma HeldOn(s: State, e: Event, s': State, t: nat, name: Text, a: Address)
    requires Sound(s.memory) && Sound(s'.memory) && Step(s, e, s') && e != End(t)
    requires t in s.pending && a in s.memory.objects
    requires forall l :: l in s.memory.names && s.memory.names[l] == a ==> l == name
    ensures t in s'.pending && s'.pending[t] == s.pending[t] && a in s'.memory.objects
    ensures forall l :: l in s'.memory.names && s'.memory.names[l] == a ==> l == name
    ensures if name in s'.memory.names && s'.memory.names[name] == a
            then name in View(s'.memory) && View(s'.memory)[name] == s'.memory.objects[a]
            else s'.memory.objects[a] == s.memory.objects[a]
  {
    hide Write;
    if e.Done? {
      DetachedStaysFrozen(s.memory, e.call, e.spare, name, a);
    }
  }

  lemma {:induction false} StillMissing(states: seq<State>, events: seq<Event>, t: nat, i: nat, n: nat)
    requires Run(states, events) && InFlight(events, t, i, n)
    requires events[i].select.Target() !in states[i].memory.names
    ensures t in states[n].pending && states[n].pending[t] == Pending(events[i].select, events[i].params, None)
    decreases n
  {
    assert Step(states[n - 1], events[n - 1], states[n]);
    if n > i + 1 {
      StillMissing(states, events, t, i, n - 1);
    }
  }

  /** SELECT is linearizable: in every interleaving, what it returns is what an
      atomic SELECT answers on the store of some state between its lookup and
      its return. */
  lemma SelectLinearizes(states: seq<State>, events: seq<Event>, t: nat, i: nat, j: nat) returns (k: nat)
    requires Run(states, events) && InFlight(events, t, i, j) && j < |events| && events[j] == End(t)
    ensures i <= k <= j && t in states[j].pending
    ensures events[i].select.Select?
    ensures states[j].pending[t].select == events[i].select
    ensures states[j].pending[t].table.Some? ==> states[j].pending[t].table.value in states[j].memory.objects
    ensures Returned(states[j], t) == Answer(View(states[k].memory), events[i].select, events[i].params)
  {
    assert Step(states[i], events[i], states[i + 1]);
    StaysSound(states, events, i);
    var s := events[i].select;
    if s.Target() in states[i].memory.names {
      k := HeldTable(states, events, t, i, j);
    } else {
      k := i;
      StillMissing(states, events, t, i, j);
    }
    SelectAnswers(View(states[k].memory), s, events[i].params);
  }
}
