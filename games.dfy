/** The game engine's state (Game.java): the event dispatcher, the entity
    registry, the time-ordered action queue, and the static tables of game
    types and configuration parameters. */
module Games {
  import opened Wrappers
  import opened Seqs
  import opened Dispatch
  import opened Entities
  import opened Locations
  import Players
  import Tiles

  /** An `Actionable`, by an opaque handle. */
  type ActionId = nat

  /** An entry of `actionQueue`: the action and the game time it is due at. */
  datatype TimedAction = TimedAction(action: ActionId, time: real)

  /** What `removeEntity` leaves in a collection `s` that may hold `ent`:
      nothing changes unless `ent` is there; then, if `ent` is a container,
      what it held is added, and `ent` itself is taken out. */
  function Handover(s: set<Entity>, ent: Entity, held: set<Entity>): (r: set<Entity>)
    ensures ent !in r
    ensures ent !in s ==> r == s
    ensures ent in s ==> forall x :: x in r <==> x != ent && (x in s || (ent.isContainer && x in held))
  {
    if ent !in s then s
    else if ent.isContainer then (s + held) - {ent}
    else s - {ent}
  }

  /** What a container entity holds (an entity not in the table holds nothing). */
  function Holding(contents: map<Entity, set<Entity>>, c: Entity): set<Entity>
  {
    if c in contents then contents[c] else {}
  }

  /** The container entities in `visited` have handed `ent`'s contents over;
      the others are as they were. */
  function HandOverAll(contents: map<Entity, set<Entity>>, visited: set<Entity>, ent: Entity, held: set<Entity>)
    : (r: map<Entity, set<Entity>>)
    ensures r.Keys == contents.Keys
    ensures forall c :: c in contents ==> r[c] == if c.isContainer && c in visited then Handover(contents[c], ent, held) else contents[c]
  {
    map c | c in contents :: if c.isContainer && c in visited then Handover(contents[c], ent, held) else contents[c]
  }

  /** Handing over again with what is left of `held` changes nothing. */
  lemma HandoverWithLeftover(s: set<Entity>, ent: Entity, held: set<Entity>)
    ensures Handover(s, ent, Handover(held, ent, held)) == Handover(s, ent, held)
  {
  }

  /** Visiting one more entity that is not a container holding `ent` changes nothing. */
  lemma HandOverAllSkip(contents: map<Entity, set<Entity>>, visited: set<Entity>, ent: Entity, held: set<Entity>, c: Entity)
    requires c in contents && c.isContainer ==> ent !in contents[c]
    ensures HandOverAll(contents, visited + {c}, ent, held) == HandOverAll(contents, visited, ent, held)
  {
    var r, r' := HandOverAll(contents, visited + {c}, ent, held), HandOverAll(contents, visited, ent, held);
    assert forall k :: k in r ==> r[k] == r'[k];
  }

  /** Visiting a container that holds `ent` updates its entry alone. */
  lemma HandOverAllVisit(contents: map<Entity, set<Entity>>, visited: set<Entity>, ent: Entity, held: set<Entity>, c: Entity)
    requires c in contents && c.isContainer && c !in visited
    ensures HandOverAll(contents, visited + {c}, ent, held)
         == HandOverAll(contents, visited, ent, held)[c := Handover(contents[c], ent, held)]
  {
    var r, r' := HandOverAll(contents, visited + {c}, ent, held), HandOverAll(contents, visited, ent, held)[c := Handover(contents[c], ent, held)];
    assert forall k :: k in r ==> r[k] == r'[k];
  }

  /** One turn of the container loop: a container not yet visited that holds
      `ent` gets what `ent` holds now, which when `ent` has already been
      visited is what it held less itself, and loses `ent`. */
  lemma ContainerStep(contents: map<Entity, set<Entity>>, visited: set<Entity>, ent: Entity, held: set<Entity>, c: Entity)
    requires held == Holding(contents, ent)
    requires c.isContainer && c !in visited
    requires ent in Holding(HandOverAll(contents, visited, ent, held), c)
    ensures var now := HandOverAll(contents, visited, ent, held);
      now[c := (now[c] + (if ent.isContainer then Holding(now, ent) else {})) - {ent}]
      == HandOverAll(contents, visited + {c}, ent, held)
  {
    var now := HandOverAll(contents, visited, ent, held);
    assert now[c] == contents[c];
    assert (now[c] + (if ent.isContainer then Holding(now, ent) else {})) - {ent} == Handover(contents[c], ent, held) by {
      HandoverWithLeftover(contents[c], ent, held);
    }
    HandOverAllVisit(contents, visited, ent, held, c);
  }

  /** After `removeEntity`, no visited container holds the removed entity,
      each holds what it held before except that entity, and a container
      that held it also holds what it contained. */
  lemma {:induction false} HandOverAllRemoves(contents: map<Entity, set<Entity>>, visited: set<Entity>, ent: Entity,
                                              held: set<Entity>, c: Entity)
    requires c in contents && c.isContainer && c in visited
    ensures ent !in HandOverAll(contents, visited, ent, held)[c]
    ensures contents[c] - {ent} <= HandOverAll(contents, visited, ent, held)[c]
    ensures ent in contents[c] && ent.isContainer ==> held - {ent} <= HandOverAll(contents, visited, ent, held)[c]
  {
    var r := HandOverAll(contents, visited, ent, held);
    assert r[c] == Handover(contents[c], ent, held);
  }

  /** Where `registerTimedAction` inserts an action due at `time`: before the
      first entry due strictly later, or at the end. */
  function InsertionPoint(q: seq<TimedAction>, time: real): (i: nat)
    ensures i <= |q|
    ensures forall j :: 0 <= j < i ==> q[j].time <= time
    ensures i < |q| ==> q[i].time > time
  {
    if q == [] then 0
    else if q[0].time > time then 0
    else 1 + InsertionPoint(q[1..], time)
  }

  /** The queue after inserting `a` at its insertion point. */
  function Insert(q: seq<TimedAction>, a: TimedAction): seq<TimedAction>
  {
    var i := InsertionPoint(q, a.time);
    q[..i] + [a] + q[i..]
  }

  /** Due times never decrease along the queue. */
  predicate Sorted(q: seq<TimedAction>)
  {
    forall i, j :: 0 <= i < j < |q| ==> q[i].time <= q[j].time
  }

  /** The insertion keeps a sorted queue sorted. */
  lemma InsertKeepsSorted(q: seq<TimedAction>, a: TimedAction)
    requires Sorted(q)
    ensures Sorted(Insert(q, a))
  {
    var i := InsertionPoint(q, a.time);
    var r := Insert(q, a);
    forall j, k | 0 <= j < k < |r|
      ensures r[j].time <= r[k].time
    {
      if k < i {
        assert r[j] == q[j] && r[k] == q[k];
      } else if k == i {
        assert r[j] == q[j];
      } else if j < i {
        assert r[j] == q[j] && r[k] == q[k - 1];
      } else if j == i {
        assert r[k] == q[k - 1];
        assert q[i].time > a.time;
        assert q[i].time <= q[k - 1].time || i == k - 1;
      } else {
        assert r[j] == q[j - 1] && r[k] == q[k - 1];
      }
    }
  }

  /** The queue grows by exactly the new entry: the old entries keep their
      order and the new one is among them exactly once more. */
  lemma InsertAddsOne(q: seq<TimedAction>, a: TimedAction)
    ensures var i := InsertionPoint(q, a.time);
      && |Insert(q, a)| == |q| + 1
      && Insert(q, a)[i] == a
      && Insert(q, a)[..i] + Insert(q, a)[i + 1..] == q
      && multiset(Insert(q, a)) == multiset(q) + multiset{a}
  {
    var i := InsertionPoint(q, a.time);
    var r := Insert(q, a);
    var front, back := q[..i], q[i..];
    assert q == front + back;
    assert r == front + [a] + back;
    assert r[..i] + r[i + 1..] == q by {
      assert r[..i] == front;
      assert r[i + 1..] == back;
    }
    assert multiset(r) == multiset(q) + multiset{a} by {
      assert multiset(r) == multiset(front) + multiset([a]) + multiset(back);
      assert multiset(q) == multiset(front) + multiset(back);
    }
  }

  /** Stability: in a sorted queue every entry due no later than the new one
      stays in front of it, so actions due at the same time run in the order
      they were registered; every entry due later stays behind it. */
  lemma InsertIsStable(q: seq<TimedAction>, a: TimedAction)
    requires Sorted(q)
    ensures forall j :: 0 <= j < |q| && q[j].time <= a.time ==> j < InsertionPoint(q, a.time)
    ensures forall j :: 0 <= j < |q| && q[j].time > a.time ==> j >= InsertionPoint(q, a.time)
  {
    var i := InsertionPoint(q, a.time);
    assert i < |q| ==> forall j :: i <= j < |q| ==> q[i].time <= q[j].time;
  }

  /** A configuration parameter: its name and its `ConfigurationType`, an opaque handle. */
  datatype Parameter = Parameter(name: string, kind: nat)

  /** `IllegalArgumentException` from `getParameterType`. */
  datatype ParameterError = NoSuchParameter(gameType: string, name: string)

  /** The names of a game type's parameters; none for an unknown type. */
  function ParameterNames(params: map<string, set<Parameter>>, gt: string): (r: set<string>)
    ensures gt !in params ==> r == {}
    ensures forall n :: n in r <==> gt in params && exists p :: p in params[gt] && p.name == n
  {
    if gt in params then set p | p in params[gt] :: p.name else {}
  }

  /** The static tables: `registeredGameTypes` and `defaultParams`. */
  class GameTypes {
    var registeredGameTypes: map<string, nat>
    var defaultParams: map<string, set<Parameter>>

    constructor ()
      ensures registeredGameTypes == map[] && defaultParams == map[]
    {
      registeredGameTypes := map[];
      defaultParams := map[];
    }

    /** `registerGameType`: the type now maps to this factory. */
    method RegisterGameType(typeId: string, factory: nat)
      modifies this`registeredGameTypes
      ensures GetGameFactory(typeId) == Some(factory)
      ensures forall t :: t != typeId ==> GetGameFactory(t) == old(GetGameFactory(t))
      ensures registeredGameTypes.Keys == old(registeredGameTypes).Keys + {typeId}
    {
      registeredGameTypes := registeredGameTypes[typeId := factory];
    }

    /** `getGameFactory`: the factory of a registered type, or null. */
    function GetGameFactory(gameType: string): (r: Option<nat>)
      reads this
      ensures r.Some? <==> gameType in registeredGameTypes
      ensures r.Some? ==> registeredGameTypes[gameType] == r.value
    {
      if gameType in registeredGameTypes then Some(registeredGameTypes[gameType]) else None
    }

    /** `addConfigurationParameter`: the pair joins the type's set, which is
        created empty on first use. */
    method AddConfigurationParameter(gt: string, name: string, kind: nat)
      modifies this`defaultParams
      ensures gt in defaultParams && Parameter(name, kind) in defaultParams[gt]
      ensures ParameterNames(defaultParams, gt) == ParameterNames(old(defaultParams), gt) + {name}
      ensures forall t :: t != gt ==> ParameterNames(defaultParams, t) == ParameterNames(old(defaultParams), t)
      ensures defaultParams == old(defaultParams)[gt := (if gt in old(defaultParams) then old(defaultParams)[gt] else {}) + {Parameter(name, kind)}]
    {
      if gt !in defaultParams {
        defaultParams := defaultParams[gt := {}];
      }
      defaultParams := defaultParams[gt := defaultParams[gt] + {Parameter(name, kind)}];
    }

    /** `getParameterNames`: collects the names in the type's set. */
    method GetParameterNames(gt: string) returns (names: set<string>)
      ensures names == ParameterNames(defaultParams, gt)
    {
      names := {};
      if gt in defaultParams {
        var todo := defaultParams[gt];
        while todo != {}
          invariant todo <= defaultParams[gt]
          invariant names == set p | p in defaultParams[gt] - todo :: p.name
          decreases todo
        {
          var t :| t in todo;
          names := names + {t.name};
          todo := todo - {t};
        }
      }
    }

    /** `getParameterType`: the type of a parameter of that name, found by
        scanning the set in its iteration order; an error when the game type
        is unknown or has no such parameter. */
    method GetParameterType(gt: string, name: string) returns (r: Result<nat, ParameterError>)
      ensures r.Success? ==> gt in defaultParams && Parameter(name, r.value) in defaultParams[gt]
      ensures r.Failure? <==> name !in ParameterNames(defaultParams, gt)
      ensures r.Failure? ==> r.error == NoSuchParameter(gt, name)
    {
      if gt in defaultParams {
        var todo := defaultParams[gt];
        while todo != {}
          invariant todo <= defaultParams[gt]
          invariant forall p :: p in defaultParams[gt] - todo ==> p.name != name
          decreases todo
        {
          var t :| t in todo;
          if t.name == name {
            return Success(t.kind);
          }
          todo := todo - {t};
        }
      }
      return Failure(NoSuchParameter(gt, name));
    }
  }

  /** A game's state. Listener callbacks are `react`; `log` records every
      delivery made. */
  class Game {
    const react: Reactions
    var sending: bool
    var events: seq<GameEvent>
    var listeners: set<ListenerId>
    var eventQueue: seq<GameEvent>
    var deferred: seq<ListenerId>
    ghost var log: seq<Delivery>

    var nextEntityId: Int32
    var registeredEntities: map<int, Entity>
    /** What each container entity holds (`Container.getEntities`). */
    var contents: map<Entity, set<Entity>>
    var allPlayers: set<Players.Player>

    var gameTime: real
    var actionQueue: seq<TimedAction>

    /** The dispatcher's part of the state. */
    ghost function State(): Dispatcher
      reads this
    {
      Dispatcher(sending, events, listeners, eventQueue, deferred, log)
    }

    /** The rest of the state, which the dispatcher never touches. */
    ghost function Registry(): (int, map<int, Entity>, map<Entity, set<Entity>>, set<Players.Player>, real, seq<TimedAction>)
      reads this
    {
      (nextEntityId, registeredEntities, contents, allPlayers, gameTime, actionQueue)
    }

    /** Every id in use is below the next one to be handed out. */
    predicate EntitiesValid()
      reads this
    {
      0 <= nextEntityId && forall id :: id in registeredEntities ==> 0 <= id < nextEntityId
    }

    /** The field initialisers: everything empty, time zero, ids from zero. */
    constructor (react: Reactions)
      ensures this.react == react
      ensures State() == Dispatcher(false, [], {}, [], [], [])
      ensures nextEntityId == 0 && registeredEntities == map[] && contents == map[] && allPlayers == {}
      ensures gameTime == 0.0 && actionQueue == []
      ensures EntitiesValid()
    {
      this.react := react;
      sending := false;
      events := [];
      listeners := {};
      eventQueue := [];
      deferred := [];
      log := [];
      nextEntityId := 0;
      registeredEntities := map[];
      contents := map[];
      allPlayers := {};
      gameTime := 0.0;
      actionQueue := [];
    }

    /** `gel.processGameEvent(evt)`: the listener's calls back into the
        game, made one after another during the delivery. */
    method ProcessGameEvent(l: ListenerId, e: GameEvent)
      requires sending
      modifies this
      decreases 1
      ensures State() == Invoke(old(State()), react, l, e)
      ensures Registry() == old(Registry())
    {
      log := log + [Delivery(l, e)];
      ghost var start := State();
      var rqs := react(l, e);
      for i := 0 to |rqs|
        invariant sending
        invariant State() == ReenterAll(start, rqs[..i])
        invariant Registry() == old(Registry())
      {
        assert rqs[..i + 1][..i] == rqs[..i];
        ghost var before := State();
        match rqs[i]
        case Send(ev) =>
          var _ := SendEvent(ev, 0);
          assert State() == Reenter(before, rqs[i]);
        case Register(who) =>
          RegisterEventListener(who);
          assert State() == Reenter(before, rqs[i]);
      }
      assert rqs[..|rqs|] == rqs;
    }

    /** `registerEventListener`: deferred during a delivery; otherwise the
        whole history is replayed to the listener, which then joins the set. */
    method RegisterEventListener(l: ListenerId)
      modifies this
      decreases if sending then 0 else 2
      ensures State() == RegisterListener(old(State()), react, l)
      ensures Registry() == old(Registry())
    {
      if sending {
        deferred := deferred + [l];
        return;
      }
      sending := true;
      ghost var start := State();
      for i := 0 to |events|
        invariant sending && events == start.events
        invariant State() == Replay(start, react, l, start.events[..i])
        invariant Registry() == old(Registry())
      {
        assert start.events[..i + 1][..i] == start.events[..i];
        ghost var before := State();
        ProcessGameEvent(l, events[i]);
        InvokeEffect(before, react, l, start.events[i]);
      }
      assert start.events[..|start.events|] == start.events;
      listeners := listeners + {l};
      sending := false;
    }

    /** The live pass of a top-level `sendEvent`: the event joins the
        history, and each listener of the snapshot taken now, one by one in
        the set's iteration order, is called if it is eligible. Returns that
        order. */
    method PassEvent(e: GameEvent) returns (order: seq<ListenerId>)
      requires !sending
      modifies this
      decreases 3
      ensures State() == Dispatch.Pass(old(State()), react, e, order)
      ensures Enumerates(order, old(listeners))
      ensures Registry() == old(Registry())
    {
      sending := true;
      events := events + [e];
      ghost var start := State();
      var snapshot := listeners;
      var todo := snapshot;
      order := [];
      while todo != {}
        invariant sending
        invariant State() == Deliver(start, react, e, order)
        invariant todo <= snapshot
        invariant NoDuplicates(order)
        invariant forall k :: 0 <= k < |order| ==> order[k] in snapshot && order[k] !in todo
        invariant forall x :: x in snapshot ==> x in todo || x in order
        invariant Registry() == old(Registry())
        decreases todo
      {
        var l :| l in todo;
        if e.whiteList.None? || l in e.whiteList.value {
          ghost var before := State();
          ProcessGameEvent(l, e);
          InvokeEffect(before, react, l, e);
        }
        assert (order + [l])[..|order|] == order;
        order := order + [l];
        todo := todo - {l};
      }
      sending := false;
    }

    /** The deferred registrations of a top-level `sendEvent`: over a copy
        of the list, each entry is removed from the list and registered. */
    method FlushDeferred()
      requires !sending
      modifies this
      decreases 3
      ensures State() == Dispatch.Flush(old(State()), react, old(deferred))
      ensures Registry() == old(Registry())
    {
      var tempList := deferred;
      ghost var start := State();
      for i := 0 to |tempList|
        invariant !sending
        invariant State() == Dispatch.Flush(start, react, tempList[..i])
        invariant Registry() == old(Registry())
      {
        assert tempList[..i + 1][..i] == tempList[..i];
        deferred := RemoveFirst(deferred, tempList[i]);
        RegisterEventListener(tempList[i]);
      }
      assert tempList[..|tempList|] == tempList;
    }

    /** A top-level `sendEvent` up to its tail call. */
    method SendOnce(e: GameEvent) returns (order: seq<ListenerId>)
      requires !sending
      modifies this
      decreases 4
      ensures State() == Dispatch.Cycle(old(State()), react, e, order)
      ensures Enumerates(order, old(listeners))
      ensures Registry() == old(Registry())
    {
      order := PassEvent(e);
      FlushDeferred();
    }

    /** `sendEvent`. During a delivery it only queues the event. Otherwise it
        sends it, then sends the queue's head again and again while the queue
        is not empty, at most `fuel` more times (`sendEvent`'s tail call, made
        a loop). Returns the listener order of every pass. */
    method SendEvent(e: GameEvent, fuel: nat) returns (orders: seq<seq<ListenerId>>)
      modifies this
      decreases if sending then 0 else 5
      ensures Registry() == old(Registry())
      ensures old(sending) ==> orders == [] && State() == old(State()).(queue := old(eventQueue) + [e])
      ensures !old(sending) ==> && 1 <= |orders| <= fuel + 1
                                && ValidOrders(old(State()), react, e, orders)
                                && State() == DrainSteps(old(State()), react, e, orders)
      ensures !old(sending) && |orders| <= fuel ==> eventQueue == []
    {
      if sending {
        eventQueue := eventQueue + [e];
        return [];
      }
      ghost var start := State();
      var order := SendOnce(e);
      orders := [order];
      var f := fuel;
      while eventQueue != [] && f > 0
        invariant !sending
        invariant 1 <= |orders| && |orders| + f == fuel + 1
        invariant ValidOrders(start, react, e, orders)
        invariant State() == DrainSteps(start, react, e, orders)
        invariant Registry() == old(Registry())
        decreases f
      {
        var next := eventQueue[0];
        eventQueue := eventQueue[1..];
        var o := SendOnce(next);
        DrainStepsNext(start, react, e, orders, o);
        orders := orders + [o];
        f := f - 1;
      }
    }

    /** `registerEntity`: the id handed out is the counter's value, and the
        counter moves on by one (a Java `int`, so it wraps). The entity is
        found under that id; no other entry changes. */
    method RegisterEntity(ent: Entity) returns (id: int)
      modifies this`nextEntityId, this`registeredEntities
      ensures id == old(nextEntityId) && nextEntityId == Wrap32(old(nextEntityId) + 1)
      ensures registeredEntities == old(registeredEntities)[id := ent]
      ensures GetEntity(id) == Some(ent)
      ensures old(EntitiesValid()) ==> id !in old(registeredEntities)
      ensures old(EntitiesValid()) && old(nextEntityId) < MaxInt32 ==> EntitiesValid() && nextEntityId == id + 1
    {
      id := nextEntityId;
      nextEntityId := Wrap32(nextEntityId + 1);
      registeredEntities := registeredEntities[id := ent];
    }

    /** `getEntity`: the entity registered under the id, or null. */
    function GetEntity(id: int): (r: Option<Entity>)
      reads this
      ensures r.Some? <==> id in registeredEntities
      ensures r.Some? ==> r.value == registeredEntities[id]
    {
      if id in registeredEntities then Some(registeredEntities[id]) else None
    }

    /** `getEntities`: every registered entity. */
    function GetEntities(): (r: set<Entity>)
      reads this
      ensures forall id :: id in registeredEntities ==> registeredEntities[id] in r
      ensures forall e :: e in r ==> exists id :: id in registeredEntities && registeredEntities[id] == e
    {
      set id | id in registeredEntities :: registeredEntities[id]
    }

    /** `removeEntity`'s first loop: every player holding `ent` gets `held`
        (when `ent` is a container) and loses `ent`. */
    method HandOverFromPlayers(ent: Entity, held: set<Entity>)
      modifies allPlayers
      ensures forall p :: p in allPlayers ==> p.entities == Handover(old(p.entities), ent, held)
      ensures forall p :: p in allPlayers ==> p.properties == old(p.properties)
    {
      var players := allPlayers;
      while players != {}
        invariant players <= allPlayers
        invariant forall p :: p in allPlayers && p !in players ==> p.entities == Handover(old(p.entities), ent, held)
        invariant forall p :: p in players ==> p.entities == old(p.entities)
        invariant forall p :: p in allPlayers ==> p.properties == old(p.properties)
        decreases players
      {
        var p :| p in players;
        if ent in p.GetEntities() {
          if ent.isContainer {
            var todo := held;
            while todo != {}
              invariant todo <= held
              invariant p.entities == old(p.entities) + (held - todo)
              invariant forall q :: q in allPlayers ==> q.properties == old(q.properties)
              modifies p
              decreases todo
            {
              var e :| e in todo;
              p.AddEntity(e);
              todo := todo - {e};
            }
          }
          p.RemoveEntity(ent);
        }
        players := players - {p};
      }
    }

    /** `removeEntity`'s second loop: every registered container entity
        holding `ent` gets what `ent` holds now (when `ent` is a container)
        and loses `ent`. Java visits `registeredEntities.values()`, where an
        entity registered twice comes up twice; the second visit finds it
        no longer holding `ent` and changes nothing. */
    method HandOverFromContainers(ent: Entity)
      modifies this`contents
      ensures contents == HandOverAll(old(contents), registeredEntities.Values, ent, old(Holding(contents, ent)))
    {
      ghost var held := Holding(contents, ent);
      var todo := registeredEntities.Values;
      while todo != {}
        invariant todo <= registeredEntities.Values
        invariant contents == HandOverAll(old(contents), registeredEntities.Values - todo, ent, held)
        decreases todo
      {
        var c :| c in todo;
        ghost var visited := registeredEntities.Values - todo;
        assert registeredEntities.Values - (todo - {c}) == visited + {c};
        if c.isContainer && ent in Holding(contents, c) {
          var given := if ent.isContainer then Holding(contents, ent) else {};
          ContainerStep(old(contents), visited, ent, held, c);
          contents := contents[c := (contents[c] + given) - {ent}];
        } else {
          HandOverAllSkip(old(contents), visited, ent, held, c);
        }
        todo := todo - {c};
      }
      assert registeredEntities.Values - todo == registeredEntities.Values;
    }

    /** `removeEntity`. `located` is the tile the board finds the entity on
        (`board.getTile(ent)`), or null. Every player holding the entity, and
        every registered container entity holding it, gets what the entity
        held (when it is a container) and loses the entity; the tile branch
        never runs, because `containsEntity` is false; then the entry under
        the entity's own id goes. */
    method RemoveEntity(ent: Entity, located: Tiles.Tile?)
      requires located != null ==> located.Valid()
      modifies this, allPlayers
      ensures forall p :: p in old(allPlayers) ==> p.entities == Handover(old(p.entities), ent, old(Holding(contents, ent)))
      ensures forall p :: p in old(allPlayers) ==> p.properties == old(p.properties)
      ensures contents == HandOverAll(old(contents), old(registeredEntities).Values, ent, old(Holding(contents, ent)))
      ensures registeredEntities == old(registeredEntities) - {ent.id}
      ensures State() == old(State())
      ensures nextEntityId == old(nextEntityId) && allPlayers == old(allPlayers)
      ensures gameTime == old(gameTime) && actionQueue == old(actionQueue)
    {
      HandOverFromPlayers(ent, Holding(contents, ent));
      HandOverFromContainers(ent);
      if located != null && located.ContainsEntity(ent) {
        assert false;
      }
      registeredEntities := registeredEntities - {ent.id};
    }

    /** `registerTimedAction`: the action, due `t` after the current game
        time, goes in before the first entry due strictly later, or at the
        end. */
    method RegisterTimedAction(t: real, a: ActionId)
      modifies this`actionQueue
      ensures actionQueue == Insert(old(actionQueue), TimedAction(a, gameTime + t))
    {
      var time := gameTime + t;
      var action := TimedAction(a, time);
      var i := 0;
      while i < |actionQueue|
        invariant 0 <= i <= |actionQueue|
        invariant forall j :: 0 <= j < i ==> actionQueue[j].time <= time
        invariant actionQueue == old(actionQueue)
      {
        if actionQueue[i].time > time {
          actionQueue := actionQueue[..i] + [action] + actionQueue[i..];
          return;
        }
        i := i + 1;
      }
      actionQueue := actionQueue + [action];
    }
  }
}
