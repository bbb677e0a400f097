/** The event broker: a bounded queue for each subscriber, broadcasts that never
    wait, and receivers that run in between. */
module Broker {
  import opened Text

  const CAPACITY := 64

  /** A send that does not block: a full queue misses the message. */
  function Offered(queue: seq<Text>, msg: Text): seq<Text> {
    if |queue| < CAPACITY then queue + [msg] else queue
  }

  function Event(kind: Text, payload: Text): Text {
    "event: " + kind + "\ndata: " + payload + "\n\n"
  }

  lemma EventText(kind: Text, payload: Text)
    ensures Event(kind, payload) == "event: " + kind + "\ndata: " + payload + "\n\n"
  {
  }

  // ---------- The broker as the server runs it ----------

  class Channel {
    var queue: seq<Text>
    var closed: bool

    constructor ()
      ensures queue == [] && !closed
    {
      queue, closed := [], false;
    }
  }

  class EventBroker {
    var clients: set<Channel>

    constructor ()
      ensures Valid() && clients == {}
    {
      clients := {};
    }

    /** Nobody sends to a closed channel because those in the map are open. */
    ghost predicate Valid()
      reads this, clients
    {
      forall ch :: ch in clients ==> !ch.closed && |ch.queue| <= CAPACITY
    }

    method Subscribe() returns (ch: Channel)
      requires Valid()
      modifies this
      ensures Valid() && clients == old(clients) + {ch} && fresh(ch) && ch.queue == []
    {
      ch := new Channel();
      clients := clients + {ch};
    }

    /** Closes a channel once: a second call finds it gone. What is queued can
        still be received. */
    method Unsubscribe(ch: Channel)
      requires Valid()
      modifies this, ch`closed
      ensures Valid() && clients == old(clients) - {ch}
      ensures ch.closed == (old(ch.closed) || ch in old(clients))
    {
      if ch in clients {
        clients := clients - {ch};
        ch.closed := true;
      }
    }

    /** One offer to every client, in whatever order the map is walked. */
    method Broadcast(kind: Text, payload: Text)
      requires Valid()
      modifies clients
      ensures Valid()
      ensures var msg := "event: " + kind + "\ndata: " + payload + "\n\n";
              forall ch :: ch in clients ==> ch.queue == if |old(ch.queue)| < 64 then old(ch.queue) + [msg] else old(ch.queue)
    {
      var msg := Event(kind, payload);
      EventText(kind, payload);
      hide Event;
      var left := clients;
      while left != {}
        invariant left <= clients && Valid()
        invariant forall ch :: ch in clients ==>
          ch.queue == if ch in left then old(ch.queue) else Offered(old(ch.queue), msg)
      {
        var ch :| ch in left;
        if |ch.queue| < CAPACITY {
          ch.queue := ch.queue + [msg];
        }
        left := left - {ch};
      }
    }
  }

  // ---------- Every interleaving ----------

  type Chan = nat

  /** One subscriber. `from` is how many broadcasts had been made when it came;
      `taken` says of each one since whether its queue had room, and `got` how
      many messages it had received by then. `until` is how many broadcasts had
      been made when it left. */
  datatype Client = Client(queue: seq<Text>, closed: bool, received: seq<Text>, from: nat, until: nat,
                           taken: seq<bool>, got: seq<nat>)

  datatype Lock = Free | Sending(left: set<Chan>)

  /** `history` is every message broadcast so far, the one being sent included. */
  datatype State = State(clients: set<Chan>, chans: map<Chan, Client>, lock: Lock, history: seq<Text>)

  const EMPTY := State({}, map[], Free, [])

  /** A broadcast takes the lock, offers to one client after another and lets go;
      receiving takes no lock. */
  datatype Action = Subscribe(c: Chan) | Unsubscribe(c: Chan) | Begin(msg: Text) | Offer(c: Chan) | End | Receive(c: Chan)

  predicate Enabled(s: State, a: Action) {
    match a
    case Subscribe(c) => s.lock.Free? && c !in s.chans
    case Unsubscribe(c) => s.lock.Free?
    case Begin(_) => s.lock.Free?
    case Offer(c) => s.lock.Sending? && c in s.lock.left
    case End => s.lock.Sending? && s.lock.left == {}
    case Receive(c) => c in s.chans && s.chans[c].queue != []
  }

  /** A send to a closed channel and a second close are run-time panics. */
  predicate Panics(s: State, a: Action) {
    match a
    case Offer(c) => c !in s.chans || s.chans[c].closed || s.history == []
    case Unsubscribe(c) => c in s.clients && (c !in s.chans || s.chans[c].closed)
    case _ => false
  }

  function OfferTo(cl: Client, msg: Text): Client {
    cl.(queue := Offered(cl.queue, msg), taken := cl.taken + [|cl.queue| < CAPACITY], got := cl.got + [|cl.received|])
  }

  function ReceiveOne(cl: Client): Client
    requires cl.queue != []
  {
    cl.(queue := cl.queue[1..], received := cl.received + [cl.queue[0]])
  }

  function Step(s: State, a: Action): State
    requires Enabled(s, a) && !Panics(s, a)
  {
    match a
    case Subscribe(c) => s.(clients := s.clients + {c}, chans := s.chans[c := Client([], false, [], |s.history|, 0, [], [])])
    case Unsubscribe(c) =>
      if c in s.clients then s.(clients := s.clients - {c}, chans := s.chans[c := s.chans[c].(closed := true, until := |s.history|)]) else s
    case Begin(msg) => s.(lock := Sending(s.clients), history := s.history + [msg])
    case Offer(c) =>
      s.(lock := Sending(s.lock.left - {c}), chans := s.chans[c := OfferTo(s.chans[c], s.history[|s.history| - 1])])
    case End => s.(lock := Free)
    case Receive(c) => s.(chans := s.chans[c := ReceiveOne(s.chans[c])])
  }

  ghost predicate Reaches(s: State, actions: seq<Action>, t: State)
    decreases |actions|
  {
    if actions == [] then s == t
    else Enabled(s, actions[0]) && !Panics(s, actions[0]) && Reaches(Step(s, actions[0]), actions[1..], t)
  }

  /** The messages whose flag is set, in order. */
  function Chosen(msgs: seq<Text>, flags: seq<bool>): seq<Text>
    requires |msgs| == |flags|
  {
    if msgs == [] then []
    else Chosen(msgs[..|msgs| - 1], flags[..|flags| - 1]) + if flags[|flags| - 1] then [msgs[|msgs| - 1]] else []
  }

  function Count(flags: seq<bool>): nat {
    if flags == [] then 0 else Count(flags[..|flags| - 1]) + if flags[|flags| - 1] then 1 else 0
  }

  /** What was received and what is queued are, in order, the broadcasts made
      while subscribed that were not missed; one was missed exactly when 64
      accepted messages were not yet received. */
  ghost predicate Sound(cl: Client, history: seq<Text>) {
    && |cl.queue| <= CAPACITY && |cl.got| == |cl.taken| && cl.from + |cl.taken| <= |history|
    && (cl.closed ==> cl.from + |cl.taken| == cl.until)
    && cl.received + cl.queue == Chosen(history[cl.from..cl.from + |cl.taken|], cl.taken)
    && |cl.received| + |cl.queue| == Count(cl.taken)
    && forall i :: 0 <= i < |cl.taken| ==>
         && cl.got[i] <= |cl.received| && cl.got[i] <= Count(cl.taken[..i])
         && (cl.taken[i] <==> Count(cl.taken[..i]) - cl.got[i] < CAPACITY)
  }

  /** A subscriber has been offered every broadcast made since it came, but for
      the one that may be on its way. */
  ghost predicate UpToDate(s: State, c: Chan)
    requires c in s.chans
  {
    && !s.chans[c].closed
    && s.chans[c].from + |s.chans[c].taken| == |s.history| - if s.lock.Sending? && c in s.lock.left then 1 else 0
  }

  ghost predicate Inv(s: State) {
    && (forall c :: c in s.clients ==> c in s.chans && UpToDate(s, c))
    && (forall c :: c in s.chans ==> Sound(s.chans[c], s.history))
    && (forall c :: c in s.chans && c !in s.clients ==> s.chans[c].closed)
    && (s.lock.Sending? ==> s.lock.left <= s.clients && s.history != [])
  }

  lemma MoreHistory(cl: Client, history: seq<Text>, msg: Text)
    requires Sound(cl, history)
    ensures Sound(cl, history + [msg])
  {
    hide Count, Chosen;
    var to := cl.from + |cl.taken|;
    assert (history + [msg])[cl.from..to] == history[cl.from..to];
  }

  lemma OfferSound(cl: Client, history: seq<Text>)
    requires Sound(cl, history) && !cl.closed && cl.from + |cl.taken| + 1 == |history|
    ensures Sound(OfferTo(cl, history[|history| - 1]), history)
  {
    hide Count, Chosen;
    OfferChosen(cl, history);
    OfferCount(cl, history[|history| - 1]);
  }

  lemma OfferChosen(cl: Client, history: seq<Text>)
    requires Sound(cl, history) && cl.from + |cl.taken| + 1 == |history|
    ensures var t := OfferTo(cl, history[|history| - 1]);
            t.received + t.queue == Chosen(history[cl.from..cl.from + |t.taken|], t.taken)
  {
    hide Count;
    var n := |cl.taken|;
    var t := OfferTo(cl, history[|history| - 1]);
    var now := history[cl.from..cl.from + n + 1];
    assert t.taken[..n] == cl.taken && now[..n] == history[cl.from..cl.from + n] && now[n] == history[|history| - 1];
    if |cl.queue| < CAPACITY {
      assert t.received + t.queue == (cl.received + cl.queue) + [history[|history| - 1]];
    }
  }

  lemma OfferCount(cl: Client, msg: Text)
    requires |cl.queue| <= CAPACITY && |cl.received| + |cl.queue| == Count(cl.taken)
    ensures var t := OfferTo(cl, msg);
            && |t.received| + |t.queue| == Count(t.taken)
            && (forall i :: 0 <= i <= |cl.taken| ==> t.taken[..i] == cl.taken[..i])
            && (t.taken[|cl.taken|] <==> Count(cl.taken) - |cl.received| < CAPACITY)
            && cl.taken[..|cl.taken|] == cl.taken
  {
  }

  lemma ReceiveSound(cl: Client, history: seq<Text>)
    requires Sound(cl, history) && cl.queue != []
    ensures Sound(ReceiveOne(cl), history)
  {
    hide Count, Chosen;
    assert ReceiveOne(cl).received + ReceiveOne(cl).queue == cl.received + cl.queue;
  }

  lemma NewSound(history: seq<Text>)
    ensures Sound(Client([], false, [], |history|, 0, [], []), history)
  {
  }

  lemma StepKeepsInv(s: State, a: Action)
    requires Inv(s) && Enabled(s, a)
    ensures !Panics(s, a) && Inv(Step(s, a))
  {
    hide Sound, OfferTo, ReceiveOne;
    assert !Panics(s, a);
    match a
    case Subscribe(c) =>
      NewSound(s.history);
    case Unsubscribe(c) =>
      if c in s.clients {
        assert UpToDate(s, c);
        CloseSound(s.chans[c], s.history);
      }
    case Begin(msg) =>
      forall c | c in s.chans
        ensures Sound(s.chans[c], s.history + [msg])
      {
        MoreHistory(s.chans[c], s.history, msg);
      }
    case Offer(c) =>
      assert UpToDate(s, c);
      OfferSound(s.chans[c], s.history);
      OfferKeeps(s.chans[c], s.history[|s.history| - 1]);
    case End =>
    case Receive(c) =>
      ReceiveSound(s.chans[c], s.history);
      ReceiveKeeps(s.chans[c]);
  }

  lemma CloseSound(cl: Client, history: seq<Text>)
    requires Sound(cl, history) && cl.from + |cl.taken| == |history|
    ensures Sound(cl.(closed := true, until := |history|), history)
  {
    hide Count, Chosen;
  }

  lemma OfferKeeps(cl: Client, msg: Text)
    ensures var t := OfferTo(cl, msg); t.closed == cl.closed && t.from == cl.from && |t.taken| == |cl.taken| + 1
  {
  }

  lemma ReceiveKeeps(cl: Client)
    requires cl.queue != []
    ensures var t := ReceiveOne(cl); t.closed == cl.closed && t.from == cl.from && t.taken == cl.taken
  {
  }

  lemma {:induction false} RunKeepsInv(s: State, actions: seq<Action>, t: State)
    requires Inv(s) && Reaches(s, actions, t)
    ensures Inv(t)
    decreases |actions|
  {
    hide Inv, Step, Enabled, Panics;
    if actions != [] {
      StepKeepsInv(s, actions[0]);
      RunKeepsInv(Step(s, actions[0]), actions[1..], t);
    }
  }

  /** In every interleaving no closed channel is sent to or closed again, and
      every subscriber, present or past, has got what it was owed in order. */
  lemma DeliveryIsSound(actions: seq<Action>, s: State, a: Action)
    requires Reaches(EMPTY, actions, s) && Enabled(s, a)
    ensures !Panics(s, a)
    ensures a.Offer? ==> a.c in s.chans && !s.chans[a.c].closed
    ensures a.Unsubscribe? && a.c in s.clients ==> a.c in s.chans && !s.chans[a.c].closed
    ensures forall c :: c in s.chans ==> Sound(s.chans[c], s.history)
    ensures forall c :: c in s.clients ==> c in s.chans && UpToDate(s, c)
  {
    hide Sound, Step;
    RunKeepsInv(EMPTY, actions, s);
    StepKeepsInv(s, a);
  }

  /** A subscriber that has left: its channel is closed, and what it got and what is
      queued for it are together what they were when it left. */
  ghost predicate Left(s: State, c: Chan, got: seq<Text>) {
    c !in s.clients && c in s.chans && s.chans[c].closed && s.chans[c].received + s.chans[c].queue == got
  }

  lemma StepKeepsLeft(s: State, a: Action, c: Chan, got: seq<Text>)
    requires Inv(s) && Left(s, c, got) && Enabled(s, a) && !Panics(s, a)
    ensures Left(Step(s, a), c, got)
  {
    hide Sound, OfferTo;
    if a.Receive? {
      ReceiveKeeps(s.chans[a.c]);
      var cl := s.chans[a.c];
      assert ReceiveOne(cl).received + ReceiveOne(cl).queue == cl.received + cl.queue;
    }
  }

  lemma {:induction false} RunKeepsLeft(s: State, actions: seq<Action>, t: State, c: Chan, got: seq<Text>)
    requires Inv(s) && Left(s, c, got) && Reaches(s, actions, t)
    ensures Left(t, c, got)
    decreases |actions|
  {
    hide Inv, Step, Enabled, Panics, Left;
    if actions != [] {
      StepKeepsLeft(s, actions[0], c, got);
      StepKeepsInv(s, actions[0]);
      RunKeepsLeft(Step(s, actions[0]), actions[1..], t, c, got);
    }
  }

  /** Once a subscriber has left, its channel is closed and stays so, nothing more is
      queued for it, and what is queued can still be received, in order. */
  lemma LeavingIsFinal(before: seq<Action>, s: State, c: Chan, after: seq<Action>, t: State)
    requires Reaches(EMPTY, before, s) && c in s.clients && Enabled(s, Unsubscribe(c)) && !Panics(s, Unsubscribe(c))
    requires Reaches(Step(s, Unsubscribe(c)), after, t)
    ensures c in s.chans && c in t.chans && c !in t.clients && t.chans[c].closed
    ensures t.chans[c].received + t.chans[c].queue == s.chans[c].received + s.chans[c].queue
  {
    hide Reaches, Sound;
    NothingYet();
    RunKeepsInv(EMPTY, before, s);
    StepKeepsInv(s, Unsubscribe(c));
    RunKeepsLeft(Step(s, Unsubscribe(c)), after, t, c, s.chans[c].received + s.chans[c].queue);
  }

  lemma {:induction false} ChosenAll(msgs: seq<Text>, flags: seq<bool>)
    requires |msgs| == |flags| && forall i :: 0 <= i < |flags| ==> flags[i]
    ensures Chosen(msgs, flags) == msgs && Count(flags) == |flags|
  {
    if msgs != [] {
      var n := |msgs| - 1;
      ChosenAll(msgs[..n], flags[..n]);
      assert msgs[..n] + [msgs[n]] == msgs;
    }
  }

  /** The broadcasts a subscriber was to get end at the last one, but for one on
      its way to it; those of a past subscriber end where it left. */
  function LastDue(s: State, c: Chan): nat
    requires c in s.chans && (s.lock.Sending? ==> s.history != [])
  {
    if c !in s.clients then s.chans[c].until
    else |s.history| - if s.lock.Sending? && c in s.lock.left then 1 else 0
  }

  lemma OfferedUpTo(s: State, c: Chan)
    requires Inv(s) && c in s.chans
    ensures s.lock.Sending? ==> s.history != []
    ensures Sound(s.chans[c], s.history) && s.chans[c].from + |s.chans[c].taken| == LastDue(s, c)
  {
    hide Count, Chosen;
    assert c in s.clients ==> UpToDate(s, c);
  }

  /** What it was offered and took: one that was never 64 behind took it all. */
  ghost predicate Prompt(cl: Client) {
    && |cl.got| == |cl.taken|
    && forall i :: 0 <= i < |cl.taken| ==> Count(cl.taken[..i]) - cl.got[i] < CAPACITY
  }

  lemma NothingYet()
    ensures Inv(EMPTY)
  {
  }

  lemma WithinHistory(cl: Client, history: seq<Text>)
    requires Sound(cl, history)
    ensures cl.from + |cl.taken| <= |history|
  {
    hide Count, Chosen;
  }

  lemma PromptTakesAll(cl: Client, history: seq<Text>)
    requires Sound(cl, history) && Prompt(cl)
    ensures cl.received + cl.queue == history[cl.from..cl.from + |cl.taken|]
  {
    ChosenAll(history[cl.from..cl.from + |cl.taken|], cl.taken);
  }

  /** In every interleaving a subscriber that never falls 64 behind misses
      nothing: it gets exactly the broadcasts made while it was there. */
  lemma PromptReaderMissesNothing(actions: seq<Action>, s: State, c: Chan)
    requires Reaches(EMPTY, actions, s) && c in s.chans && Prompt(s.chans[c])
    ensures s.lock.Sending? ==> s.history != []
    ensures var cl, to := s.chans[c], LastDue(s, c);
            cl.from <= to <= |s.history| && cl.received + cl.queue == s.history[cl.from..to]
  {
    hide Reaches, Sound, Prompt, LastDue;
    NothingYet();
    RunKeepsInv(EMPTY, actions, s);
    OfferedUpTo(s, c);
    assert s.chans[c].from + |s.chans[c].taken| <= |s.history| by { WithinHistory(s.chans[c], s.history); }
    PromptTakesAll(s.chans[c], s.history);
  }
}
