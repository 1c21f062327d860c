/** The game's event dispatcher (Game.java `sendEvent` and
    `registerEventListener`) as a state machine on values.

    A listener's `processGameEvent` is code this model cannot see; what it
    does to the game is given by `react`: the calls it makes back into the
    game, in order, for each event it is handed. Every such call happens
    while a delivery is in progress, so it only queues an event or defers a
    registration. The order in which a `HashSet` of listeners is iterated is
    not fixed by Java; every pass takes it as a parameter. */
module Dispatch {
  import opened Wrappers
  import opened Seqs

  type ListenerId = nat

  /** A game event: its identity and its white list (null: everyone). */
  datatype GameEvent = GameEvent(id: nat, whiteList: Option<set<ListenerId>>)

  /** A call a listener makes back into the game: `sendEvent` or
      `registerEventListener`. */
  datatype Request = Send(event: GameEvent) | Register(listener: ListenerId)

  /** One `processGameEvent(event)` call on a listener. */
  datatype Delivery = Delivery(listener: ListenerId, event: GameEvent)

  type Reactions = (ListenerId, GameEvent) -> seq<Request>

  /** The dispatcher's fields: `currentlySendingEvent`, `events` (the
      history), `listeners`, `eventQueue`, `defferedListenerRegistrations`,
      and the deliveries made so far. */
  datatype Dispatcher = Dispatcher(sending: bool, events: seq<GameEvent>, listeners: set<ListenerId>,
                                   queue: seq<GameEvent>, deferred: seq<ListenerId>, log: seq<Delivery>)

  /** The events a sequence of calls sends, in order. */
  function SendsOf(rqs: seq<Request>): seq<GameEvent>
  {
    if rqs == [] then []
    else SendsOf(rqs[..|rqs| - 1]) + (if rqs[|rqs| - 1].Send? then [rqs[|rqs| - 1].event] else [])
  }

  /** The listeners a sequence of calls registers, in order. */
  function RegistersOf(rqs: seq<Request>): seq<ListenerId>
  {
    if rqs == [] then []
    else RegistersOf(rqs[..|rqs| - 1]) + (if rqs[|rqs| - 1].Register? then [rqs[|rqs| - 1].listener] else [])
  }

  /** The events sent by the listeners while handling these deliveries. */
  function Sends(react: Reactions, ds: seq<Delivery>): seq<GameEvent>
  {
    if ds == [] then []
    else Sends(react, ds[..|ds| - 1]) + SendsOf(react(ds[|ds| - 1].listener, ds[|ds| - 1].event))
  }

  /** The registrations requested by the listeners while handling these deliveries. */
  function Registers(react: Reactions, ds: seq<Delivery>): seq<ListenerId>
  {
    if ds == [] then []
    else Registers(react, ds[..|ds| - 1]) + RegistersOf(react(ds[|ds| - 1].listener, ds[|ds| - 1].event))
  }

  /** The dispatcher after these deliveries have been made while sending:
      logged, their sends queued and their registrations deferred. */
  function Extend(react: Reactions, d: Dispatcher, ds: seq<Delivery>): Dispatcher
  {
    Dispatcher(d.sending, d.events, d.listeners, d.queue + Sends(react, ds), d.deferred + Registers(react, ds), d.log + ds)
  }

  /** A call made during a delivery: `sendEvent` appends to the queue and
      `registerEventListener` to the deferred list; neither delivers. */
  function Reenter(d: Dispatcher, rq: Request): Dispatcher
  {
    match rq
    case Send(e) => d.(queue := d.queue + [e])
    case Register(l) => d.(deferred := d.deferred + [l])
  }

  function ReenterAll(d: Dispatcher, rqs: seq<Request>): Dispatcher
  {
    if rqs == [] then d else Reenter(ReenterAll(d, rqs[..|rqs| - 1]), rqs[|rqs| - 1])
  }

  /** `l.processGameEvent(e)`: logged, then the listener's calls. */
  function Invoke(d: Dispatcher, react: Reactions, l: ListenerId, e: GameEvent): Dispatcher
  {
    ReenterAll(d.(log := d.log + [Delivery(l, e)]), react(l, e))
  }

  /** `registerEventListener`'s loop: the listener handles each old event in turn. */
  function Replay(d: Dispatcher, react: Reactions, l: ListenerId, evs: seq<GameEvent>): Dispatcher
  {
    if evs == [] then d else Invoke(Replay(d, react, l, evs[..|evs| - 1]), react, l, evs[|evs| - 1])
  }

  /** `registerEventListener` outside a delivery: the whole history is
      replayed with the flag up, then the listener joins the set. */
  function RegisterTop(d: Dispatcher, react: Reactions, l: ListenerId): Dispatcher
  {
    var r := Replay(d.(sending := true), react, l, d.events);
    r.(sending := false, listeners := r.listeners + {l})
  }

  /** `registerEventListener`: deferred during a delivery, immediate otherwise. */
  function RegisterListener(d: Dispatcher, react: Reactions, l: ListenerId): Dispatcher
  {
    if d.sending then d.(deferred := d.deferred + [l]) else RegisterTop(d, react, l)
  }

  /** A listener receives the event when it has no white list or is on it. */
  predicate Eligible(e: GameEvent, l: ListenerId)
  {
    e.whiteList.None? || l in e.whiteList.value
  }

  /** The delivery loop over the snapshot, taken in `order`. */
  function Deliver(d: Dispatcher, react: Reactions, e: GameEvent, order: seq<ListenerId>): Dispatcher
  {
    if order == [] then d
    else
      var p := Deliver(d, react, e, order[..|order| - 1]);
      var l := order[|order| - 1];
      if Eligible(e, l) then Invoke(p, react, l, e) else p
  }

  /** `sendEvent`'s pass: flag up, event into the history, delivery to the
      snapshot, flag down. */
  function Pass(d: Dispatcher, react: Reactions, e: GameEvent, order: seq<ListenerId>): Dispatcher
  {
    Deliver(d.(sending := true, events := d.events + [e]), react, e, order).(sending := false)
  }

  /** `ArrayList.remove(Object)`: drops the first occurrence. */
  function RemoveFirst(s: seq<ListenerId>, x: ListenerId): seq<ListenerId>
  {
    if s == [] then [] else if s[0] == x then s[1..] else [s[0]] + RemoveFirst(s[1..], x)
  }

  /** `sendEvent`'s loop over the copied deferred list: each entry is
      removed from the list, then registered. */
  function Flush(d: Dispatcher, react: Reactions, pending: seq<ListenerId>): Dispatcher
  {
    if pending == [] then d
    else
      var p := Flush(d, react, pending[..|pending| - 1]);
      var l := pending[|pending| - 1];
      RegisterTop(p.(deferred := RemoveFirst(p.deferred, l)), react, l)
  }

  /** One top-level send without its tail call: the pass, then the deferred
      registrations. */
  function Cycle(d: Dispatcher, react: Reactions, e: GameEvent, order: seq<ListenerId>): Dispatcher
  {
    var p := Pass(d, react, e, order);
    Flush(p, react, p.deferred)
  }

  /** A top-level send followed by sends of the queue's head, one per
      further order, while the queue is not empty. */
  function DrainSteps(d: Dispatcher, react: Reactions, e: GameEvent, orders: seq<seq<ListenerId>>): Dispatcher
    requires |orders| >= 1
  {
    if |orders| == 1 then Cycle(d, react, e, orders[0])
    else
      var p := DrainSteps(d, react, e, orders[..|orders| - 1]);
      if p.queue == [] then p else Cycle(p.(queue := p.queue[1..]), react, p.queue[0], orders[|orders| - 1])
  }

  /** Every pass of the run iterated over exactly the listeners registered
      at its start. */
  predicate ValidOrders(d: Dispatcher, react: Reactions, e: GameEvent, orders: seq<seq<ListenerId>>)
    requires |orders| >= 1
  {
    if |orders| == 1 then Enumerates(orders[0], d.listeners)
    else
      var p := DrainSteps(d, react, e, orders[..|orders| - 1]);
      ValidOrders(d, react, e, orders[..|orders| - 1]) && (p.queue != [] ==> Enumerates(orders[|orders| - 1], p.listeners))
  }

  /** One more step of a run: the queue's head is sent in a further cycle,
      whose pass must enumerate the listeners registered by then. */
  lemma DrainStepsNext(d: Dispatcher, react: Reactions, e: GameEvent, orders: seq<seq<ListenerId>>, o: seq<ListenerId>)
    requires |orders| >= 1 && DrainSteps(d, react, e, orders).queue != []
    ensures var p := DrainSteps(d, react, e, orders);
      && DrainSteps(d, react, e, orders + [o]) == Cycle(p.(queue := p.queue[1..]), react, p.queue[0], o)
      && (ValidOrders(d, react, e, orders + [o]) <==> ValidOrders(d, react, e, orders) && Enumerates(o, p.listeners))
  {
    assert (orders + [o])[..|orders|] == orders;
  }

  /** The deliveries of a replay: the listener, each event in order. */
  function DeliveriesTo(l: ListenerId, evs: seq<GameEvent>): (r: seq<Delivery>)
    ensures |r| == |evs|
    ensures forall i :: 0 <= i < |evs| ==> r[i] == Delivery(l, evs[i])
  {
    if evs == [] then [] else DeliveriesTo(l, evs[..|evs| - 1]) + [Delivery(l, evs[|evs| - 1])]
  }

  /** The deliveries of a pass: the eligible listeners, in `order`. */
  function PassLog(e: GameEvent, order: seq<ListenerId>): seq<Delivery>
  {
    if order == [] then []
    else
      var l := order[|order| - 1];
      PassLog(e, order[..|order| - 1]) + (if Eligible(e, l) then [Delivery(l, e)] else [])
  }

  /** The deliveries of a flush: each registered listener gets the history. */
  function ReplayAll(evs: seq<GameEvent>, pending: seq<ListenerId>): seq<Delivery>
  {
    if pending == [] then [] else ReplayAll(evs, pending[..|pending| - 1]) + DeliveriesTo(pending[|pending| - 1], evs)
  }

  lemma {:induction false} SendsAppend(react: Reactions, a: seq<Delivery>, b: seq<Delivery>)
    ensures Sends(react, a + b) == Sends(react, a) + Sends(react, b)
    decreases |b|
  {
    if b == [] {
      assert a + b == a;
    } else {
      var b' := b[..|b| - 1];
      var x := b[|b| - 1];
      assert (a + b)[..|a + b| - 1] == a + b';
      assert (a + b)[|a + b| - 1] == x;
      SendsAppend(react, a, b');
      assert Sends(react, a + b) == Sends(react, a + b') + SendsOf(react(x.listener, x.event));
      assert Sends(react, b) == Sends(react, b') + SendsOf(react(x.listener, x.event));
    }
  }

  lemma {:induction false} RegistersAppend(react: Reactions, a: seq<Delivery>, b: seq<Delivery>)
    ensures Registers(react, a + b) == Registers(react, a) + Registers(react, b)
    decreases |b|
  {
    if b == [] {
      assert a + b == a;
    } else {
      var b' := b[..|b| - 1];
      var x := b[|b| - 1];
      assert (a + b)[..|a + b| - 1] == a + b';
      assert (a + b)[|a + b| - 1] == x;
      RegistersAppend(react, a, b');
      assert Registers(react, a + b) == Registers(react, a + b') + RegistersOf(react(x.listener, x.event));
      assert Registers(react, b) == Registers(react, b') + RegistersOf(react(x.listener, x.event));
    }
  }

  lemma ExtendTwice(react: Reactions, d: Dispatcher, a: seq<Delivery>, b: seq<Delivery>)
    ensures Extend(react, Extend(react, d, a), b) == Extend(react, d, a + b)
  {
    var once := Extend(react, d, a);
    assert once.queue + Sends(react, b) == d.queue + Sends(react, a + b) by {
      SendsAppend(react, a, b);
    }
    assert once.deferred + Registers(react, b) == d.deferred + Registers(react, a + b) by {
      RegistersAppend(react, a, b);
    }
    assert once.log + b == d.log + (a + b);
  }

  lemma SendsSingle(react: Reactions, x: Delivery)
    ensures Sends(react, [x]) == SendsOf(react(x.listener, x.event))
    ensures Registers(react, [x]) == RegistersOf(react(x.listener, x.event))
  {
    assert [x][..0] == [];
  }

  /** Calls made during a delivery queue their events and defer their
      registrations, in order, and change nothing else. */
  lemma {:induction false} ReenterAllEffect(d: Dispatcher, rqs: seq<Request>)
    ensures ReenterAll(d, rqs) == d.(queue := d.queue + SendsOf(rqs), deferred := d.deferred + RegistersOf(rqs))
    decreases |rqs|
  {
    if rqs != [] {
      ReenterAllEffect(d, rqs[..|rqs| - 1]);
    }
  }

  /** One delivery logs itself and queues and defers what the listener asked for. */
  lemma InvokeEffect(d: Dispatcher, react: Reactions, l: ListenerId, e: GameEvent)
    ensures Invoke(d, react, l, e) == Extend(react, d, [Delivery(l, e)])
  {
    ReenterAllEffect(d.(log := d.log + [Delivery(l, e)]), react(l, e));
    SendsSingle(react, Delivery(l, e));
  }

  /** A replay delivers the events to the listener in their original order. */
  lemma {:induction false} ReplayEffect(d: Dispatcher, react: Reactions, l: ListenerId, evs: seq<GameEvent>)
    ensures Replay(d, react, l, evs) == Extend(react, d, DeliveriesTo(l, evs))
    decreases |evs|
  {
    if evs == [] {
      assert Extend(react, d, []) == d;
    } else {
      var front := evs[..|evs| - 1];
      ReplayEffect(d, react, l, front);
      InvokeEffect(Replay(d, react, l, front), react, l, evs[|evs| - 1]);
      ExtendTwice(react, d, DeliveriesTo(l, front), [Delivery(l, evs[|evs| - 1])]);
    }
  }

  /** Registering outside a delivery replays the entire history to the new
      listener, in order, and then adds it to the set; nothing else
      happens besides what the listener asks for during the replay. */
  lemma RegisterTopEffect(d: Dispatcher, react: Reactions, l: ListenerId)
    requires !d.sending
    ensures RegisterTop(d, react, l) == Extend(react, d, DeliveriesTo(l, d.events)).(listeners := d.listeners + {l})
  {
    ReplayEffect(d.(sending := true), react, l, d.events);
  }

  /** The delivery loop makes exactly the deliveries of `PassLog`. */
  lemma {:induction false} DeliverEffect(d: Dispatcher, react: Reactions, e: GameEvent, order: seq<ListenerId>)
    ensures Deliver(d, react, e, order) == Extend(react, d, PassLog(e, order))
    decreases |order|
  {
    if order == [] {
      assert Extend(react, d, []) == d;
    } else {
      var front := order[..|order| - 1];
      var l := order[|order| - 1];
      DeliverEffect(d, react, e, front);
      if Eligible(e, l) {
        InvokeEffect(Deliver(d, react, e, front), react, l, e);
        ExtendTwice(react, d, PassLog(e, front), [Delivery(l, e)]);
      } else {
        assert PassLog(e, order) == PassLog(e, front) + [];
        assert PassLog(e, order) == PassLog(e, front);
      }
    }
  }

  /** A top-level pass appends the event to the history once and makes the
      deliveries of `PassLog`, everything the listeners send or register
      during it being queued or deferred. */
  lemma PassEffect(d: Dispatcher, react: Reactions, e: GameEvent, order: seq<ListenerId>)
    requires !d.sending
    ensures Pass(d, react, e, order) == Extend(react, d.(events := d.events + [e]), PassLog(e, order))
  {
    DeliverEffect(d.(sending := true, events := d.events + [e]), react, e, order);
  }

  /** The deliveries of a pass are to listeners of the order that are
      eligible, each with this event. */
  lemma {:induction false} PassLogMembers(e: GameEvent, order: seq<ListenerId>)
    ensures forall x :: x in PassLog(e, order) <==> x.event == e && x.listener in order && Eligible(e, x.listener)
    decreases |order|
  {
    if order != [] {
      var front := order[..|order| - 1];
      PassLogMembers(e, front);
      assert order == front + [order[|order| - 1]];
    }
  }

  /** No listener of a duplicate-free order is called twice. */
  lemma {:induction false} PassLogNoDuplicates(e: GameEvent, order: seq<ListenerId>)
    requires NoDuplicates(order)
    ensures NoDuplicates(PassLog(e, order))
    decreases |order|
  {
    if order != [] {
      var front := order[..|order| - 1];
      var l := order[|order| - 1];
      PassLogNoDuplicates(e, front);
      PassLogMembers(e, front);
      var log := PassLog(e, order);
      if Eligible(e, l) {
        assert log[..|log| - 1] == PassLog(e, front);
        assert log[|log| - 1] == Delivery(l, e);
      } else {
        assert log == PassLog(e, front);
      }
    }
  }

  /** A pass over an enumeration of the snapshot calls every eligible
      snapshot listener exactly once with the event, and no one else. */
  lemma PassDeliversToSnapshot(e: GameEvent, order: seq<ListenerId>, snapshot: set<ListenerId>)
    requires Enumerates(order, snapshot)
    ensures NoDuplicates(PassLog(e, order))
    ensures forall x :: x in PassLog(e, order) <==> x.event == e && x.listener in snapshot && Eligible(e, x.listener)
  {
    PassLogNoDuplicates(e, order);
    PassLogMembers(e, order);
  }

  lemma RemoveHead(s: seq<ListenerId>, rest: seq<ListenerId>)
    requires s != []
    ensures RemoveFirst(s + rest, s[0]) == s[1..] + rest
  {
    assert (s + rest)[0] == s[0];
    assert (s + rest)[1..] == s[1..] + rest;
  }

  /** After the first `k` deferred registrations: each was taken off the
      deferred list and registered, so the list holds the remaining ones and
      whatever the replays deferred; each replay handed the history to its
      listener. */
  lemma {:induction false} FlushEffect(d: Dispatcher, react: Reactions, pending: seq<ListenerId>, k: nat)
    requires !d.sending && d.deferred == pending && k <= |pending|
    ensures Flush(d, react, pending[..k])
         == Extend(react, d.(listeners := d.listeners + Elements(pending[..k]), deferred := pending[k..]),
                   ReplayAll(d.events, pending[..k]))
    decreases k
  {
    if k == 0 {
      assert pending[..0] == [];
      assert Elements(pending[..0]) == {};
      assert d.(listeners := d.listeners + {}, deferred := pending[0..]) == d;
      assert Extend(react, d, []) == d;
    } else {
      var front := pending[..k - 1];
      var l := pending[k - 1];
      var rest := pending[k..];
      assert pending[..k] == front + [l];
      assert pending[k - 1..] == [l] + rest;
      assert Flush(d, react, front)
          == Extend(react, d.(listeners := d.listeners + Elements(front), deferred := [l] + rest),
                    ReplayAll(d.events, front)) by {
        FlushEffect(d, react, pending, k - 1);
      }
      FlushStep(d, react, front, l, rest);
    }
  }

  /** One more deferred registration: it is taken off the front of the
      deferred list, and its replay is logged after the earlier ones. */
  lemma FlushStep(d: Dispatcher, react: Reactions, front: seq<ListenerId>, l: ListenerId, rest: seq<ListenerId>)
    requires !d.sending
    requires Flush(d, react, front)
          == Extend(react, d.(listeners := d.listeners + Elements(front), deferred := [l] + rest),
                    ReplayAll(d.events, front))
    ensures Flush(d, react, front + [l])
         == Extend(react, d.(listeners := d.listeners + Elements(front + [l]), deferred := rest),
                   ReplayAll(d.events, front + [l]))
  {
    var base := d.(listeners := d.listeners + Elements(front), deferred := rest);
    var before := ReplayAll(d.events, front);
    var mine := DeliveriesTo(l, d.events);
    assert Flush(d, react, front + [l]) == Extend(react, base, before + mine).(listeners := base.listeners + {l}) by {
      FlushReplays(d, react, front, l, rest);
    }
    JoinStep(d.listeners, front, l);
    PrefixStep(d.events, front, l);
  }

  /** The registration taken off the deferred list replays the history to
      its listener and joins the set. */
  lemma FlushReplays(d: Dispatcher, react: Reactions, front: seq<ListenerId>, l: ListenerId, rest: seq<ListenerId>)
    requires !d.sending
    requires Flush(d, react, front)
          == Extend(react, d.(listeners := d.listeners + Elements(front), deferred := [l] + rest),
                    ReplayAll(d.events, front))
    ensures var base := d.(listeners := d.listeners + Elements(front), deferred := rest);
      Flush(d, react, front + [l])
      == Extend(react, base, ReplayAll(d.events, front) + DeliveriesTo(l, d.events)).(listeners := base.listeners + {l})
  {
    var before := ReplayAll(d.events, front);
    var base := d.(listeners := d.listeners + Elements(front), deferred := rest);
    var q := Extend(react, base, before);
    assert Flush(d, react, front + [l]) == RegisterTop(q, react, l) by {
      FlushTakes(d, react, front, l, rest);
    }
    RegisterTopEffect(q, react, l);
    ExtendTwice(react, base, before, DeliveriesTo(l, d.events));
  }

  /** The registration is taken off the front of the deferred list. */
  lemma FlushTakes(d: Dispatcher, react: Reactions, front: seq<ListenerId>, l: ListenerId, rest: seq<ListenerId>)
    requires Flush(d, react, front)
          == Extend(react, d.(listeners := d.listeners + Elements(front), deferred := [l] + rest),
                    ReplayAll(d.events, front))
    ensures Flush(d, react, front + [l])
         == RegisterTop(Extend(react, d.(listeners := d.listeners + Elements(front), deferred := rest),
                               ReplayAll(d.events, front)), react, l)
  {
    var p := Flush(d, react, front);
    assert p.(deferred := RemoveFirst(p.deferred, l))
        == Extend(react, d.(listeners := d.listeners + Elements(front), deferred := rest), ReplayAll(d.events, front)) by {
      RemoveHead([l] + rest, Registers(react, ReplayAll(d.events, front)));
    }
    FlushUnfold(d, react, front, l);
  }

  /** The listeners after one more registration. */
  lemma JoinStep(listeners: set<ListenerId>, front: seq<ListenerId>, l: ListenerId)
    ensures listeners + Elements(front) + {l} == listeners + Elements(front + [l])
  {
    assert Elements(front + [l]) == Elements(front) + {l};
  }

  /** `Flush` unfolded once at its last registration. */
  lemma FlushUnfold(d: Dispatcher, react: Reactions, front: seq<ListenerId>, l: ListenerId)
    ensures Flush(d, react, front + [l])
         == RegisterTop(Flush(d, react, front).(deferred := RemoveFirst(Flush(d, react, front).deferred, l)), react, l)
  {
    assert (front + [l])[..|front + [l]| - 1] == front;
  }

  /** One more deferred registration replays the history once more. */
  lemma PrefixStep(evs: seq<GameEvent>, front: seq<ListenerId>, l: ListenerId)
    ensures ReplayAll(evs, front + [l]) == ReplayAll(evs, front) + DeliveriesTo(l, evs)
  {
    assert (front + [l])[..|front|] == front;
  }

  lemma ExtendPassed(react: Reactions, d: Dispatcher, base: Dispatcher, e: GameEvent, listeners: set<ListenerId>,
                     passed: seq<Delivery>, flushed: seq<Delivery>)
    requires base == Extend(react, d.(events := d.events + [e]), passed).(listeners := listeners, deferred := [])
    requires !d.sending
    ensures Extend(react, base, flushed)
         == Dispatcher(false, d.events + [e], listeners, d.queue + Sends(react, passed + flushed),
                       Registers(react, flushed), d.log + passed + flushed)
  {
    var r := Extend(react, base, flushed);
    assert r.queue == d.queue + Sends(react, passed + flushed) by {
      SendsAppend(react, passed, flushed);
    }
    assert r.deferred == Registers(react, flushed);
    assert r.log == d.log + passed + flushed;
  }

  /** One cycle: the event enters the history and reaches the eligible
      snapshot listeners; then every deferred registration is made, each
      replaying the now longer history. The history followed by the queue
      grows by the event and by what was sent meanwhile. */
  lemma CycleEffect(d: Dispatcher, react: Reactions, e: GameEvent, order: seq<ListenerId>)
    requires !d.sending
    ensures var passed := PassLog(e, order);
      var pending := d.deferred + Registers(react, passed);
      var flushed := ReplayAll(d.events + [e], pending);
      Cycle(d, react, e, order)
        == Dispatcher(false, d.events + [e], d.listeners + Elements(pending),
                      d.queue + Sends(react, passed + flushed), Registers(react, flushed),
                      d.log + passed + flushed)
  {
    var passed := PassLog(e, order);
    PassEffect(d, react, e, order);
    var p := Pass(d, react, e, order);
    var pending := p.deferred;
    assert p == Extend(react, d.(events := d.events + [e]), passed);
    var flushed := ReplayAll(d.events + [e], pending);
    FlushEffect(p, react, pending, |pending|);
    assert pending[..|pending|] == pending;
    assert pending[|pending|..] == [];
    var base := p.(listeners := p.listeners + Elements(pending), deferred := []);
    assert Cycle(d, react, e, order) == Extend(react, base, flushed);
    ExtendPassed(react, d, base, e, d.listeners + Elements(pending), passed, flushed);
  }

  lemma Split<T>(a: seq<T>, b: seq<T>, c: seq<T>)
    ensures a + b + c == a + (b + c)
    ensures (a + (b + c))[..|a|] == a && (a + (b + c))[|a|..] == b + c
  {
  }

  lemma PrefixChain<T>(a: seq<T>, b: seq<T>, c: seq<T>)
    requires |a| <= |b| && b[..|a|] == a && |b| <= |c| && c[..|b|] == b
    ensures |a| <= |c| && c[..|a|] == a
    ensures c[|a|..] == b[|a|..] + c[|b|..]
  {
    assert c == b + c[|b|..];
  }

  lemma Rotate<T>(pe: seq<T>, pq: seq<T>, ce: seq<T>, cq: seq<T>, start: seq<T>, so: seq<T>, sn: seq<T>, n: nat)
    requires pq != [] && pe + pq == start + so
    requires ce == pe + [pq[0]] && cq == pq[1..] + sn
    requires n <= |pe|
    ensures ce + cq == start + (so + sn)
    ensures n <= |ce| && ce[..n] == pe[..n]
  {
    assert [pq[0]] + pq[1..] == pq;
    calc {
      ce + cq;
      pe + [pq[0]] + (pq[1..] + sn);
      pe + ([pq[0]] + pq[1..]) + sn;
      pe + pq + sn;
      start + so + sn;
      start + (so + sn);
    }
  }

  /** One cycle in first-in-first-out terms: the event joins the history,
      and what the listeners sent meanwhile joins the queue, in order. */
  lemma CycleFifo(d: Dispatcher, react: Reactions, e: GameEvent, order: seq<ListenerId>)
    requires !d.sending
    ensures var c := Cycle(d, react, e, order);
      && !c.sending && c.events == d.events + [e]
      && |d.log| <= |c.log| && c.log[..|d.log|] == d.log
      && c.queue == d.queue + Sends(react, c.log[|d.log|..])
  {
    CycleEffect(d, react, e, order);
    var passed := PassLog(e, order);
    var flushed := ReplayAll(d.events + [e], d.deferred + Registers(react, passed));
    Split(d.log, passed, flushed);
  }

  /** First in, first out: over a whole run, the history and the queue
      together are the old history, the event sent, the old queue and then
      every event sent during the run, in the order sent. So the event goes
      into the history right after the old history, ahead of whatever was
      still queued, and queued events enter it in the order they were
      queued. */
  lemma {:induction false} DrainFifo(d: Dispatcher, react: Reactions, e: GameEvent, orders: seq<seq<ListenerId>>)
    requires !d.sending && |orders| >= 1
    ensures var r := DrainSteps(d, react, e, orders);
      && !r.sending
      && |d.log| <= |r.log| && r.log[..|d.log|] == d.log
      && r.events + r.queue == d.events + [e] + d.queue + Sends(react, r.log[|d.log|..])
      && |r.events| > |d.events| && r.events[..|d.events| + 1] == d.events + [e]
    decreases |orders|
  {
    if |orders| == 1 {
      CycleFifo(d, react, e, orders[0]);
      var r := DrainSteps(d, react, e, orders);
      assert r.events + r.queue == d.events + [e] + d.queue + Sends(react, r.log[|d.log|..]);
      assert r.events[..|d.events| + 1] == d.events + [e];
    } else {
      var front := orders[..|orders| - 1];
      DrainFifo(d, react, e, front);
      var p := DrainSteps(d, react, e, front);
      if p.queue != [] {
        var p' := p.(queue := p.queue[1..]);
        CycleFifo(p', react, p.queue[0], orders[|orders| - 1]);
        var c := Cycle(p', react, p.queue[0], orders[|orders| - 1]);
        PrefixChain(d.log, p.log, c.log);
        var older, newer := p.log[|d.log|..], c.log[|p.log|..];
        SendsAppend(react, older, newer);
        Rotate(p.events, p.queue, c.events, c.queue, d.events + [e] + d.queue,
               Sends(react, older), Sends(react, newer), |d.events| + 1);
      }
    }
  }
}
