/** The server's accept loop, its connection handlers and one Stop, as steps that
    interleave in any order. What happens under the connection lock, or by one
    atomic operation, is one step. */
module Lifecycle {
  type Conn = nat

  /** Between Accept and the go statement the loop holds one connection. */
  datatype Acceptor = Listening | Accepted(c: Conn) | Registered(c: Conn) | Counted(c: Conn) | Exited

  /** How far a handler is: started, counted as active, its connection closed,
      no longer active, no longer registered. The next step ends it. */
  datatype Handler = Spawned | Running | Closed | Inactive | Unregistered

  datatype Stopping = NotCalled | Signalled | Deaf | Swept | Returned

  datatype Server = Server(
    acceptor: Acceptor,
    handlers: map<Conn, Handler>,
    conns: set<Conn>,
    closed: set<Conn>,
    wg: int,
    active: int,
    stop: Stopping,
    seen: set<Conn>,
    early: set<Conn>,
    late: set<Conn>)

  /** Started: the wait group counts the accept loop. `seen` are all connections
      ever accepted; `early` were registered when the sweep ran, `late` after. */
  const STARTED := Server(Listening, map[], {}, {}, 1, 0, NotCalled, {}, {}, {})

  datatype Event =
    | Accept(c: Conn)
    | AcceptFails
    | Register
    | Add
    | Spawn
    | Begin(c: Conn)
    | Finish(c: Conn)
    | Deactivate(c: Conn)
    | Unregister(c: Conn)
    | Done(c: Conn)
    | Signal
    | CloseListener
    | Sweep
    | Return

  predicate SweptOrReturned(s: Server) {
    s.stop.Swept? || s.stop.Returned?
  }

  predicate At(s: Server, c: Conn, h: Handler) {
    c in s.handlers && s.handlers[c] == h
  }

  /** A closed listener accepts nothing; Accept may fail at any time. A handler
      may finish on its own account at any time. Wait returns at zero. */
  predicate Enabled(s: Server, e: Event) {
    match e
    case Accept(c) => s.acceptor.Listening? && (s.stop.NotCalled? || s.stop.Signalled?) && c !in s.seen
    case AcceptFails => s.acceptor.Listening?
    case Register => s.acceptor.Accepted?
    case Add => s.acceptor.Registered?
    case Spawn => s.acceptor.Counted?
    case Begin(c) => At(s, c, Spawned)
    case Finish(c) => At(s, c, Running)
    case Deactivate(c) => At(s, c, Closed)
    case Unregister(c) => At(s, c, Inactive)
    case Done(c) => At(s, c, Unregistered)
    case Signal => s.stop.NotCalled?
    case CloseListener => s.stop.Signalled?
    case Sweep => s.stop.Deaf?
    case Return => s.stop.Swept? && s.wg == 0
  }

  function Step(s: Server, e: Event): Server
    requires Enabled(s, e)
  {
    match e
    case Accept(c) => s.(acceptor := Accepted(c), seen := s.seen + {c})
    case AcceptFails => s.(acceptor := Exited, wg := s.wg - 1)
    case Register =>
      var c := s.acceptor.c;
      s.(acceptor := Registered(c), conns := s.conns + {c}, late := if SweptOrReturned(s) then s.late + {c} else s.late)
    case Add => s.(acceptor := Counted(s.acceptor.c), wg := s.wg + 1)
    case Spawn => s.(acceptor := Listening, handlers := s.handlers[s.acceptor.c := Spawned])
    case Begin(c) => s.(handlers := s.handlers[c := Running], active := s.active + 1)
    case Finish(c) => s.(handlers := s.handlers[c := Closed], closed := s.closed + {c})
    case Deactivate(c) => s.(handlers := s.handlers[c := Inactive], active := s.active - 1)
    case Unregister(c) => s.(handlers := s.handlers[c := Unregistered], conns := s.conns - {c})
    case Done(c) => s.(handlers := s.handlers - {c}, wg := s.wg - 1)
    case Signal => s.(stop := Signalled)
    case CloseListener => s.(stop := Deaf)
    case Sweep => s.(stop := Swept, closed := s.closed + s.conns, early := s.conns)
    case Return => s.(stop := Returned)
  }

  ghost predicate Reaches(s: Server, events: seq<Event>, t: Server)
    decreases |events|
  {
    if events == [] then s == t else Enabled(s, events[0]) && Reaches(Step(s, events[0]), events[1..], t)
  }

  // ---------- The invariant ----------

  predicate Idle(a: Acceptor) {
    a.Listening? || a.Exited?
  }

  /** The loop holds this connection, and has registered it. */
  predicate Holds(a: Acceptor, c: Conn) {
    (a.Registered? || a.Counted?) && a.c == c
  }

  predicate Counts(h: Handler) {
    h.Running? || h.Closed?
  }

  function Active(handlers: map<Conn, Handler>): set<Conn> {
    set c | c in handlers && Counts(handlers[c])
  }

  /** The accept loop while it lives, one handler it has counted but not yet
      started, and the handlers that have not ended. */
  function Owed(s: Server): int {
    (if s.acceptor.Exited? then 0 else 1) + (if s.acceptor.Counted? then 1 else 0) + |s.handlers|
  }

  /** The registered connections are those of the handlers that have not yet
      taken themselves off, and the one in the loop's hands. */
  ghost predicate Registry(s: Server) {
    && (!Idle(s.acceptor) ==> s.acceptor.c in s.seen && s.acceptor.c !in s.handlers)
    && (forall c :: c in s.handlers ==> c in s.seen)
    && (forall c :: c in s.conns <==> (c in s.handlers && !s.handlers[c].Unregistered?) || Holds(s.acceptor, c))
  }

  ghost predicate Counters(s: Server) {
    s.wg == Owed(s) && s.active == |Active(s.handlers)| && (s.stop.Returned? ==> s.wg == 0)
  }

  ghost predicate Sweeping(s: Server) {
    && (if SweptOrReturned(s) then s.early <= s.closed && s.conns <= s.early + s.late else s.late == {})
    && |s.late| + (if s.acceptor.Accepted? then 1 else 0) <= 1
  }

  ghost predicate Inv(s: Server) {
    Registry(s) && Counters(s) && Sweeping(s)
  }

  lemma StartedInv()
    ensures Inv(STARTED)
  {
    assert Active(map[]) == {};
  }

  lemma Moved(handlers: map<Conn, Handler>, c: Conn, h: Handler)
    requires c in handlers
    ensures var now := handlers[c := h];
            && |now| == |handlers|
            && |Active(now)| - |Active(handlers)| == (if Counts(h) then 1 else 0) - (if Counts(handlers[c]) then 1 else 0)
  {
    var now := handlers[c := h];
    assert now.Keys == handlers.Keys;
    assert |now| == |now.Keys| && |handlers| == |handlers.Keys|;
    if Counts(h) == Counts(handlers[c]) {
      assert Active(now) == Active(handlers);
    } else if Counts(h) {
      assert Active(now) == Active(handlers) + {c} && c !in Active(handlers);
    } else {
      assert Active(now) == Active(handlers) - {c} && c in Active(handlers);
    }
  }

  lemma Started(handlers: map<Conn, Handler>, c: Conn)
    requires c !in handlers
    ensures var now := handlers[c := Spawned]; |now| == |handlers| + 1 && |Active(now)| == |Active(handlers)|
  {
    var now := handlers[c := Spawned];
    assert now.Keys == handlers.Keys + {c};
    assert |now| == |now.Keys| && |handlers| == |handlers.Keys|;
    assert Active(now) == Active(handlers);
  }

  lemma Finished(handlers: map<Conn, Handler>, c: Conn)
    requires c in handlers && handlers[c].Unregistered?
    ensures var now := handlers - {c}; |now| == |handlers| - 1 && |Active(now)| == |Active(handlers)|
  {
    var now := handlers - {c};
    assert handlers.Keys == now.Keys + {c};
    assert |now| == |now.Keys| && |handlers| == |handlers.Keys|;
    assert Active(now) == Active(handlers);
  }

  lemma RegistryKept(s: Server, e: Event)
    requires Registry(s) && Enabled(s, e)
    ensures Registry(Step(s, e))
  {
  }

  lemma CountersKept(s: Server, e: Event)
    requires Counters(s) && Enabled(s, e)
    requires s.acceptor.Counted? ==> s.acceptor.c !in s.handlers
    ensures Counters(Step(s, e))
  {
    hide Active;
    match e
    case Spawn => Started(s.handlers, s.acceptor.c);
    case Begin(c) => Moved(s.handlers, c, Running);
    case Finish(c) => Moved(s.handlers, c, Closed);
    case Deactivate(c) => Moved(s.handlers, c, Inactive);
    case Unregister(c) => Moved(s.handlers, c, Unregistered);
    case Done(c) => Finished(s.handlers, c);
    case _ =>
  }

  lemma SweepingKept(s: Server, e: Event)
    requires Sweeping(s) && Enabled(s, e)
    ensures Sweeping(Step(s, e))
  {
    if e.Register? && SweptOrReturned(s) {
      assert s.late == {};
      assert s.late + {s.acceptor.c} == {s.acceptor.c};
    }
  }

  lemma StepKeepsInv(s: Server, e: Event)
    requires Inv(s) && Enabled(s, e)
    ensures Inv(Step(s, e))
  {
    hide Counters, Sweeping;
    RegistryKept(s, e);
    CountersKept(s, e);
    SweepingKept(s, e);
  }

  lemma {:induction false} RunKeepsInv(s: Server, events: seq<Event>, t: Server)
    requires Inv(s) && Reaches(s, events, t)
    ensures Inv(t)
    decreases |events|
  {
    hide Inv;
    if events != [] {
      StepKeepsInv(s, events[0]);
      RunKeepsInv(Step(s, events[0]), events[1..], t);
    }
  }

  // ---------- What Stop guarantees ----------

  /** In every interleaving the wait group counts the live accept loop and the
      handlers that have not ended, and is never negative; the active counter
      counts the handlers at work. */
  lemma WaitGroupCounts(events: seq<Event>, s: Server)
    requires Reaches(STARTED, events, s)
    ensures s.wg == Owed(s) >= 0 && s.active == |Active(s.handlers)|
  {
    hide Active;
    StartedInv();
    RunKeepsInv(STARTED, events, s);
  }

  /** When Stop has returned nobody is left: no accept loop, no handler, no
      registered connection, no active one. */
  lemma NothingAfterStop(events: seq<Event>, s: Server)
    requires Reaches(STARTED, events, s) && s.stop.Returned?
    ensures s.acceptor.Exited? && s.handlers == map[] && s.conns == {} && s.active == 0
  {
    StartedInv();
    RunKeepsInv(STARTED, events, s);
    assert |s.handlers| == 0;
    assert Active(s.handlers) == {};
  }

  /** The sweep closes every connection registered before it; at most one can
      be registered after it. */
  lemma SweepClosesAllButOne(events: seq<Event>, s: Server)
    requires Reaches(STARTED, events, s) && SweptOrReturned(s)
    ensures s.early <= s.closed && s.conns <= s.early + s.late && |s.late| <= 1
  {
    hide Active;
    StartedInv();
    RunKeepsInv(STARTED, events, s);
  }

  /** The one that comes late is registered, open, and keeps Stop waiting, though
      it was accepted when Stop had begun. */
  lemma LateConnectionStaysOpen(c: Conn) returns (events: seq<Event>, s: Server)
    ensures Reaches(STARTED, events, s) && Signal in events && Accept(c) in events
    ensures s.stop.Swept? && c in s.conns && c !in s.closed && s.wg > 0
  {
    var s1 := Step(STARTED, Signal);
    var s2 := Step(Step(Step(s1, Accept(c)), CloseListener), Sweep);
    s := Step(s2, Register);
    events := [Signal, Accept(c), CloseListener, Sweep, Register];
    assert Reaches(s, [], s);
    assert Reaches(s2, [Register], s);
    assert Reaches(Step(Step(s1, Accept(c)), CloseListener), [Sweep, Register], s);
    assert Reaches(Step(s1, Accept(c)), [CloseListener, Sweep, Register], s);
    assert Reaches(s1, [Accept(c), CloseListener, Sweep, Register], s);
    assert events[1..] == [Accept(c), CloseListener, Sweep, Register];
  }

  // ---------- When Stop returns ----------

  /** A step that no client is needed for: nobody connects, and a handler ends
      because its connection is closed. */
  predicate Unaided(s: Server, e: Event) {
    Enabled(s, e) && !e.Accept? && (e.Finish? ==> e.c in s.closed)
  }

  ghost predicate Alone(s: Server, events: seq<Event>, t: Server)
    decreases |events|
  {
    if events == [] then s == t else Unaided(s, events[0]) && Alone(Step(s, events[0]), events[1..], t)
  }

  ghost predicate CanReturn(s: Server) {
    exists events, t :: Alone(s, events, t) && t.stop.Returned?
  }

  predicate Early(h: Handler) {
    h.Spawned? || h.Running?
  }

  /** The loop, or a handler that has not yet seen the end, has this connection. */
  predicate Holding(s: Server, c: Conn) {
    (!Idle(s.acceptor) && s.acceptor.c == c) || (c in s.handlers && Early(s.handlers[c]))
  }

  /** A connection is closed by the sweep or by the end of its handler, and not
      before it is registered. */
  ghost predicate Closing(s: Server) {
    && s.closed <= s.seen && s.conns <= s.seen
    && (s.acceptor.Accepted? ==> s.acceptor.c !in s.closed)
    && (forall c :: c in s.seen && c !in s.closed ==> Holding(s, c))
    && s.late <= s.seen
  }

  lemma ClosingKept(s: Server, e: Event)
    requires Registry(s) && Closing(s) && Enabled(s, e)
    ensures Closing(Step(s, e))
  {
  }

  lemma {:induction false} RunKeepsClosing(s: Server, events: seq<Event>, t: Server)
    requires Inv(s) && Closing(s) && Reaches(s, events, t)
    ensures Inv(t) && Closing(t)
    decreases |events|
  {
    hide Counters, Sweeping, Closing, Registry;
    if events != [] {
      StepKeepsInv(s, events[0]);
      ClosingKept(s, events[0]);
      RunKeepsClosing(Step(s, events[0]), events[1..], t);
    }
  }

  lemma OpenStep(s: Server, c: Conn, e: Event)
    requires Registry(s) && Counters(s) && s.stop.Swept? && c !in s.closed && Holding(s, c) && Unaided(s, e)
    ensures var t := Step(s, e); t.stop.Swept? && c !in t.closed && Holding(t, c)
  {
    hide Active;
    assert c in s.handlers ==> |s.handlers| > 0;
  }

  /** An open connection that is held after the sweep stays so, and keeps Stop
      from returning, as long as no client does anything. */
  lemma {:induction false} OpenForever(s: Server, c: Conn, events: seq<Event>, t: Server)
    requires Inv(s) && s.stop.Swept? && c !in s.closed && Holding(s, c) && Alone(s, events, t)
    ensures t.stop.Swept? && c !in t.closed && Holding(t, c)
    decreases |events|
  {
    hide Registry, Counters, Sweeping, Holding;
    if events != [] {
      StepKeepsInv(s, events[0]);
      OpenStep(s, c, events[0]);
      OpenForever(Step(s, events[0]), c, events[1..], t);
    }
  }

  function Stage(h: Handler): nat {
    match h
    case Spawned => 5
    case Running => 4
    case Closed => 3
    case Inactive => 2
    case Unregistered => 1
  }

  /** The handlers with at least k steps to go. */
  function Level(handlers: map<Conn, Handler>, k: nat): set<Conn> {
    set c | c in handlers && Stage(handlers[c]) >= k
  }

  function StepsOf(handlers: map<Conn, Handler>): nat {
    |Level(handlers, 1)| + |Level(handlers, 2)| + |Level(handlers, 3)| + |Level(handlers, 4)| + |Level(handlers, 5)|
  }

  function LoopSteps(a: Acceptor): nat {
    match a
    case Exited => 0
    case Listening => 1
    case Counted(_) => 7
    case Registered(_) => 8
    case Accepted(_) => 9
  }

  /** How many steps there are until Stop has returned. */
  function StepsLeft(s: Server): nat {
    LoopSteps(s.acceptor) + StepsOf(s.handlers) + if s.stop.Returned? then 0 else 1
  }

  /** After the sweep every registered connection is closed, and the loop is
      not about to register another. */
  ghost predicate Drains(s: Server) {
    && Inv(s) && SweptOrReturned(s) && !s.acceptor.Accepted?
    && s.conns <= s.closed
  }

  lemma LevelMoved(handlers: map<Conn, Handler>, c: Conn, h: Handler, k: nat)
    requires c in handlers && Stage(handlers[c]) == Stage(h) + 1
    ensures |Level(handlers[c := h], k)| == |Level(handlers, k)| - if k == Stage(h) + 1 then 1 else 0
  {
    var before, after := Level(handlers, k), Level(handlers[c := h], k);
    if k == Stage(h) + 1 {
      assert after == before - {c} && c in before;
    } else {
      assert after == before;
    }
  }

  lemma OneLess(handlers: map<Conn, Handler>, c: Conn, h: Handler)
    requires c in handlers && Stage(handlers[c]) == Stage(h) + 1
    ensures StepsOf(handlers[c := h]) == StepsOf(handlers) - 1
  {
    hide Level;
    LevelMoved(handlers, c, h, 1);
    LevelMoved(handlers, c, h, 2);
    LevelMoved(handlers, c, h, 3);
    LevelMoved(handlers, c, h, 4);
    LevelMoved(handlers, c, h, 5);
  }

  lemma LastStep(handlers: map<Conn, Handler>, c: Conn)
    requires c in handlers && handlers[c].Unregistered?
    ensures StepsOf(handlers - {c}) == StepsOf(handlers) - 1
  {
    var now := handlers - {c};
    assert Level(now, 1) == Level(handlers, 1) - {c};
    assert c in Level(handlers, 1);
    assert forall k: nat :: 2 <= k <= 5 ==> Level(now, k) == Level(handlers, k);
  }

  lemma LevelGrows(handlers: map<Conn, Handler>, c: Conn, k: nat)
    requires c !in handlers && k <= 5
    ensures |Level(handlers[c := Spawned], k)| == |Level(handlers, k)| + 1
  {
    assert Level(handlers[c := Spawned], k) == Level(handlers, k) + {c};
    assert c !in Level(handlers, k);
  }

  lemma FiveMore(handlers: map<Conn, Handler>, c: Conn)
    requires c !in handlers
    ensures StepsOf(handlers[c := Spawned]) == StepsOf(handlers) + 5
  {
    hide Level;
    LevelGrows(handlers, c, 1);
    LevelGrows(handlers, c, 2);
    LevelGrows(handlers, c, 3);
    LevelGrows(handlers, c, 4);
    LevelGrows(handlers, c, 5);
  }

  /** Every step without a client brings Stop one step nearer to its return. */
  lemma StepDrains(s: Server, e: Event)
    requires Drains(s) && Unaided(s, e)
    ensures Drains(Step(s, e)) && StepsLeft(Step(s, e)) == StepsLeft(s) - 1
  {
    hide Counters, Sweeping, StepsOf;
    StepKeepsInv(s, e);
    match e
    case Spawn => FiveMore(s.handlers, s.acceptor.c);
    case Begin(c) => OneLess(s.handlers, c, Running);
    case Finish(c) => OneLess(s.handlers, c, Closed);
    case Deactivate(c) => OneLess(s.handlers, c, Inactive);
    case Unregister(c) => OneLess(s.handlers, c, Unregistered);
    case Done(c) => LastStep(s.handlers, c);
    case _ =>
  }

  lemma SomeStep(s: Server) returns (e: Event)
    requires Drains(s) && s.stop.Swept?
    ensures Unaided(s, e)
  {
    hide Active;
    if s.wg == 0 {
      e := Return;
    } else if !s.acceptor.Exited? {
      e := match s.acceptor
           case Listening => AcceptFails
           case Registered(_) => Add
           case _ => Spawn;
    } else {
      assert s.handlers != map[];
      var c :| c in s.handlers;
      e := HandlerStep(s, c);
    }
  }

  lemma HandlerStep(s: Server, c: Conn) returns (e: Event)
    requires Drains(s) && s.stop.Swept? && c in s.handlers
    ensures Unaided(s, e)
  {
    hide Active, StepsOf;
    e := match s.handlers[c]
         case Spawned => Begin(c)
         case Running => Finish(c)
         case Closed => Deactivate(c)
         case Inactive => Unregister(c)
         case Unregistered => Done(c);
  }

  lemma {:induction false} Drained(s: Server, events: seq<Event>, t: Server)
    requires Drains(s) && Alone(s, events, t)
    ensures Drains(t) && StepsLeft(t) + |events| == StepsLeft(s)
    decreases |events|
  {
    hide Drains, StepsLeft, Enabled;
    if events != [] {
      StepDrains(s, events[0]);
      Drained(Step(s, events[0]), events[1..], t);
    }
  }

  lemma {:induction false} RunToReturn(s: Server) returns (events: seq<Event>, t: Server)
    requires Drains(s)
    ensures Alone(s, events, t) && t.stop.Returned?
    decreases StepsLeft(s)
  {
    hide StepsLeft, Inv;
    events, t := [], s;
    if s.stop.Swept? {
      var e := SomeStep(s);
      StepDrains(s, e);
      events, t := RunToReturn(Step(s, e));
      events := [e] + events;
    }
  }

  /** Whether Stop can return without any client doing anything is decided by
      the sweep: exactly when the accept loop is not about to register one more
      connection and the late one, if there is one, is closed. */
  lemma StopReturnsIff(events: seq<Event>, s: Server)
    requires Reaches(STARTED, events, s) && s.stop.Swept?
    ensures CanReturn(s) <==> !s.acceptor.Accepted? && s.late <= s.closed
  {
    hide Active;
    StartedInv();
    RunKeepsClosing(STARTED, events, s);
    if !s.acceptor.Accepted? && s.late <= s.closed {
      var more, t := RunToReturn(s);
    } else {
      var c := if s.acceptor.Accepted? then s.acceptor.c else (var c :| c in s.late && c !in s.closed; c);
      forall more, t | Alone(s, more, t)
        ensures !t.stop.Returned?
      {
        OpenForever(s, c, more, t);
      }
    }
  }

  /** And then it does return, in whatever order the steps come: every run
      without clients is on its way there, with the same number of steps left
      to go, and has arrived exactly when none is left. */
  lemma StopReturns(events: seq<Event>, s: Server, more: seq<Event>, t: Server)
    requires Reaches(STARTED, events, s) && s.stop.Swept?
    requires !s.acceptor.Accepted? && s.late <= s.closed && Alone(s, more, t)
    ensures |more| <= StepsLeft(s) && CanReturn(t)
    ensures t.stop.Returned? <==> |more| == StepsLeft(s)
  {
    hide Active, StepsLeft;
    StartedInv();
    RunKeepsClosing(STARTED, events, s);
    Drained(s, more, t);
    var rest, end := RunToReturn(t);
    NothingLeft(t);
  }

  lemma NothingLeft(s: Server)
    requires Drains(s)
    ensures StepsLeft(s) == 0 <==> s.stop.Returned?
  {
    hide Active;
    if s.stop.Returned? {
      assert |s.handlers| == 0;
      assert forall k :: Level(s.handlers, k) == {};
    }
  }
}
