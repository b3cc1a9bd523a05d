/** The `RabbitMQBus` class of MicroRabbit.Infra.Bus: its handler registry
    (`_handlers`, `_eventTypes`), the consumers it starts, and the dispatch
    of one inbound message. Broker connections are reduced to the log of
    queues on which a consumer was started. */
module RabbitMQ {
  import opened BusModel

  /** Outcome of `Subscribe`: it returns, or throws `ArgumentException`. */
  datatype SubscribeResult = Subscribed | Rejected(message: string, paramName: string)

  /** The registry's own invariant: `_eventTypes` holds no type twice, and the
      keys of `_handlers` are exactly the names of the registered event types. */
  ghost predicate RegistryInvariant(handlers: map<string, seq<TypeId>>, eventTypes: seq<TypeId>)
  {
    Distinct(eventTypes) && handlers.Keys == Names(eventTypes)
  }

  /** Every handler registration started one consumer on its event's queue:
      each name has as many consumers as handlers, and a name that is not a
      key has none. */
  ghost predicate ConsumerInvariant(handlers: map<string, seq<TypeId>>, consumers: seq<string>)
  {
    forall n :: multiset(consumers)[n] == |HandlersOf(handlers, n)|
  }

  /** No handler type appears twice in one name's list (what the corrected
      duplicate check maintains). */
  ghost predicate HandlersDistinct(handlers: map<string, seq<TypeId>>)
  {
    forall n :: n in handlers ==> Distinct(handlers[n])
  }

  /** The handler list of `eventName`, empty when the name is not a key. */
  function HandlersOf(handlers: map<string, seq<TypeId>>, eventName: string): seq<TypeId>
  {
    if eventName in handlers then handlers[eventName] else []
  }

  class RabbitMQBus {
    /** `_handlers`: event name -> handler types, in registration order. */
    var handlers: map<string, seq<TypeId>>
    /** `_eventTypes`: registered event types, in registration order. */
    var eventTypes: seq<TypeId>
    /** Queues on which `StartBasicConsume` started a consumer, in order. */
    var consumers: seq<string>

    ghost predicate Valid()
      reads this
    {
      RegistryInvariant(handlers, eventTypes) && ConsumerInvariant(handlers, consumers)
    }

    constructor ()
      ensures Valid()
      ensures handlers == map[] && eventTypes == [] && consumers == []
    {
      handlers := map[];
      eventTypes := [];
      consumers := [];
    }

    /** `StartBasicConsume<T>`: a consumer on the queue named `T.Name`. */
    method StartBasicConsume(eventType: TypeId)
      modifies this`consumers
      ensures consumers == old(consumers) + [eventType.name]
    {
      consumers := consumers + [eventType.name];
    }

    /** `Subscribe<T, TH>` as written: the duplicate check compares the
        runtime type of each registered `Type` object with the handler type. */
    method Subscribe(eventType: TypeId, handlerType: TypeId) returns (r: SubscribeResult)
      requires Valid()
      modifies this
      ensures Valid()
      ensures eventTypes == if eventType in old(eventTypes) then old(eventTypes) else old(eventTypes) + [eventType]
      ensures r.Rejected? <==> LiteralAlreadyRegistered(HandlersOf(old(handlers), eventType.name), handlerType)
      ensures r.Rejected? ==> r == Rejected(DuplicateMessage(handlerType, eventType.name), "handlerType")
      ensures r.Subscribed? ==> handlers == old(handlers)[eventType.name := HandlersOf(old(handlers), eventType.name) + [handlerType]]
      ensures r.Rejected? ==> handlers == old(handlers)
      ensures consumers == old(consumers) + if r.Subscribed? then [eventType.name] else []
    {
      var eventName := eventType.name;
      ghost var (h0, t0, c0) := (handlers, eventTypes, consumers);
      if eventType !in eventTypes {
        eventTypes := eventTypes + [eventType];
      }
      if eventName !in handlers {
        handlers := handlers[eventName := []];
      }
      ghost var before := HandlersOf(h0, eventName);
      assert handlers == h0[eventName := before];
      if LiteralAlreadyRegistered(handlers[eventName], handlerType) {
        RecordKeepsInvariants(h0, t0, c0, eventType, handlers, eventTypes);
        return Rejected(DuplicateMessage(handlerType, eventName), "handlerType");
      }
      var extended := handlers[eventName] + [handlerType];
      assert h0[eventName := before][eventName := extended] == h0[eventName := extended];
      handlers := handlers[eventName := extended];
      StartBasicConsume(eventType);
      AppendKeepsInvariants(h0, t0, c0, eventType, handlerType, handlers, eventTypes, consumers);
      r := Subscribed;
    }

    /** `Subscribe<T, TH>` with the check its comment describes
        (`k == handlerType`); it keeps every handler list duplicate-free. */
    method SubscribeIntended(eventType: TypeId, handlerType: TypeId) returns (r: SubscribeResult)
      requires Valid() && HandlersDistinct(handlers)
      modifies this
      ensures Valid() && HandlersDistinct(handlers)
      ensures eventTypes == if eventType in old(eventTypes) then old(eventTypes) else old(eventTypes) + [eventType]
      ensures r.Rejected? <==> handlerType in HandlersOf(old(handlers), eventType.name)
      ensures r.Rejected? ==> r == Rejected(DuplicateMessage(handlerType, eventType.name), "handlerType")
      ensures r.Subscribed? ==> handlers == old(handlers)[eventType.name := HandlersOf(old(handlers), eventType.name) + [handlerType]]
      ensures r.Rejected? ==> handlers == old(handlers)
      ensures consumers == old(consumers) + if r.Subscribed? then [eventType.name] else []
    {
      var eventName := eventType.name;
      ghost var (h0, t0, c0) := (handlers, eventTypes, consumers);
      if eventType !in eventTypes {
        eventTypes := eventTypes + [eventType];
      }
      if eventName !in handlers {
        handlers := handlers[eventName := []];
      }
      ghost var before := HandlersOf(h0, eventName);
      assert handlers == h0[eventName := before];
      if AlreadyRegistered(handlers[eventName], handlerType) {
        RecordKeepsInvariants(h0, t0, c0, eventType, handlers, eventTypes);
        return Rejected(DuplicateMessage(handlerType, eventName), "handlerType");
      }
      var extended := handlers[eventName] + [handlerType];
      assert h0[eventName := before][eventName := extended] == h0[eventName := extended];
      handlers := handlers[eventName := extended];
      StartBasicConsume(eventType);
      AppendKeepsInvariants(h0, t0, c0, eventType, handlerType, handlers, eventTypes, consumers);
      r := Subscribed;
    }

    /** `ProcessEvent`: look the routing name up, then walk its handler list in
        order, instantiating each handler, resolving the event type and
        invoking each instance; the first exception ends the walk. It changes
        no state. */
    method ProcessEvent(eventName: string, message: string, run: TypeId -> HandlerRun)
      returns (invoked: seq<TypeId>, outcome: Outcome)
      ensures Dispatched(invoked, outcome) == Route(handlers, eventTypes, eventName, run)
      ensures eventName !in handlers ==> invoked == [] && outcome == Completed
    {
      invoked, outcome := [], Completed;
      if eventName in handlers {
        var subscriptions := handlers[eventName];
        ghost var resolved := SingleOrDefault(eventTypes, eventName);
        ghost var spec := Dispatch(subscriptions, resolved, run);
        var i := 0;
        while i < |subscriptions|
          invariant 0 <= i <= |subscriptions|
          invariant outcome == Completed
          invariant spec.invoked == invoked + Dispatch(subscriptions[i..], resolved, run).invoked
          invariant spec.outcome == Dispatch(subscriptions[i..], resolved, run).outcome
        {
          var subscription := subscriptions[i];
          DispatchStep(subscriptions, i, resolved, run);
          var handler := run(subscription);
          if handler.ActivationFailed? {
            outcome := Faulted(handler.error);
            assert invoked + [] == invoked;
            return;
          }
          if handler.NullInstance? {
            i := i + 1;
            continue;
          }
          var eventType := SingleOrDefault(eventTypes, eventName);
          if !eventType.Single? {
            outcome := Faulted(ResolutionFault(eventType));
            assert invoked + [] == invoked;
            return;
          }
          invoked := invoked + [subscription];
          if handler.Threw? {
            outcome := Faulted(handler.error);
            return;
          }
          i := i + 1;
        }
        assert invoked + [] == invoked;
      }
    }

    /** `Consumer_Received`: dispatch the delivery under its routing key; any
        exception comes back as a new `System.Exception` with the same message. */
    method ConsumerReceived(args: Delivery, run: TypeId -> HandlerRun)
      returns (invoked: seq<TypeId>, raised: Option<Exn>)
      ensures var d := Route(handlers, eventTypes, args.routingKey, run);
              && invoked == d.invoked
              && (raised.None? <==> d.outcome == Completed)
              && (d.outcome.Faulted? ==> raised == Some(Exn(PlainException, d.outcome.error.message)))
    {
      var eventName := args.routingKey;
      var message := args.body;
      var outcome;
      invoked, outcome := ProcessEvent(eventName, message, run);
      match outcome {
        case Completed => raised := None;
        case Faulted(ex) => raised := Some(Exn(PlainException, ex.message));
      }
    }
  }

  /** Giving the name of `eventType` a list, and recording `eventType` if it
      is new, keeps the registry invariant. */
  lemma RegistryStep(handlers: map<string, seq<TypeId>>, eventTypes: seq<TypeId>, eventType: TypeId,
                     list: seq<TypeId>, handlers': map<string, seq<TypeId>>, eventTypes': seq<TypeId>)
    requires RegistryInvariant(handlers, eventTypes)
    requires handlers' == handlers[eventType.name := list]
    requires eventTypes' == if eventType in eventTypes then eventTypes else eventTypes + [eventType]
    ensures RegistryInvariant(handlers', eventTypes')
  {
    assert Names(eventTypes') == Names(eventTypes) + {eventType.name};
  }

  /** One more handler for a name, with one more consumer on its queue,
      keeps the consumer invariant. */
  lemma {:induction false} ConsumerStep(handlers: map<string, seq<TypeId>>, consumers: seq<string>, eventName: string,
                      handlerType: TypeId, handlers': map<string, seq<TypeId>>, consumers': seq<string>)
    requires ConsumerInvariant(handlers, consumers)
    requires handlers' == handlers[eventName := HandlersOf(handlers, eventName) + [handlerType]]
    requires consumers' == consumers + [eventName]
    ensures ConsumerInvariant(handlers', consumers')
  {
    forall n ensures multiset(consumers')[n] == |HandlersOf(handlers', n)| {
      assert multiset(consumers')[n] == multiset(consumers)[n] + (if n == eventName then 1 else 0);
    }
  }

  /** Lines 67-72 of `Subscribe` (add the event type if new, add an empty list
      for its name if new) keep the invariants. */
  lemma RecordKeepsInvariants(handlers: map<string, seq<TypeId>>, eventTypes: seq<TypeId>, consumers: seq<string>,
                              eventType: TypeId, handlers': map<string, seq<TypeId>>, eventTypes': seq<TypeId>)
    requires RegistryInvariant(handlers, eventTypes) && ConsumerInvariant(handlers, consumers)
    requires handlers' == handlers[eventType.name := HandlersOf(handlers, eventType.name)]
    requires eventTypes' == if eventType in eventTypes then eventTypes else eventTypes + [eventType]
    ensures RegistryInvariant(handlers', eventTypes') && ConsumerInvariant(handlers', consumers)
    ensures HandlersDistinct(handlers) ==> HandlersDistinct(handlers')
  {
    RegistryStep(handlers, eventTypes, eventType, HandlersOf(handlers, eventType.name), handlers', eventTypes');
    assert forall n :: HandlersOf(handlers', n) == HandlersOf(handlers, n);
  }

  /** The whole of a successful `Subscribe` (lines 67-72, then line 83 and the
      consumer of line 85) keeps the invariants; with a handler type not yet
      in its list, handler lists stay duplicate-free. */
  lemma AppendKeepsInvariants(handlers: map<string, seq<TypeId>>, eventTypes: seq<TypeId>, consumers: seq<string>,
                              eventType: TypeId, handlerType: TypeId,
                              handlers': map<string, seq<TypeId>>, eventTypes': seq<TypeId>, consumers': seq<string>)
    requires RegistryInvariant(handlers, eventTypes) && ConsumerInvariant(handlers, consumers)
    requires handlers' == handlers[eventType.name := HandlersOf(handlers, eventType.name) + [handlerType]]
    requires eventTypes' == if eventType in eventTypes then eventTypes else eventTypes + [eventType]
    requires consumers' == consumers + [eventType.name]
    ensures RegistryInvariant(handlers', eventTypes') && ConsumerInvariant(handlers', consumers')
    ensures HandlersDistinct(handlers) && handlerType !in HandlersOf(handlers, eventType.name) ==> HandlersDistinct(handlers')
  {
    var list := HandlersOf(handlers, eventType.name) + [handlerType];
    RegistryStep(handlers, eventTypes, eventType, list, handlers', eventTypes');
    ConsumerStep(handlers, consumers, eventType.name, handlerType, handlers', consumers');
  }

  /** A registered name always resolves to at least one type, so on a
      consistent registry `ProcessEvent` never meets a null event type. */
  lemma RegisteredNameResolves(handlers: map<string, seq<TypeId>>, eventTypes: seq<TypeId>, eventName: string)
    requires RegistryInvariant(handlers, eventTypes) && eventName in handlers
    ensures !SingleOrDefault(eventTypes, eventName).NoMatch?
  {
    var t :| t in eventTypes && t.name == eventName;
    var i :| 0 <= i < |eventTypes| && eventTypes[i] == t;
    assert eventTypes[i].name == eventName;
  }

  /** An event published for a registered type whose simple name no other
      registered type shares reaches every handler of that name, in
      registration order, when each handler completes. */
  lemma PublishedEventReachesHandlers(handlers: map<string, seq<TypeId>>, eventTypes: seq<TypeId>,
                                      e: Event, run: TypeId -> HandlerRun)
    requires RegistryInvariant(handlers, eventTypes)
    requires e.runtimeType in eventTypes
    requires forall u :: u in eventTypes && u.name == e.runtimeType.name ==> u == e.runtimeType
    requires e.runtimeType.name in handlers
    requires forall h :: h in handlers[e.runtimeType.name] ==> run(h) == Handled
    ensures var d := DefaultExchangeDelivery(Publish(e));
            Route(handlers, eventTypes, d.routingKey, run) == Dispatched(handlers[e.runtimeType.name], Completed)
  {
    ResolveUnique(eventTypes, e.runtimeType);
    AllHandlersInOrder(handlers[e.runtimeType.name], e.runtimeType, run);
  }

  /** Two registered types with the same simple name in different namespaces
      share one queue and one handler list, and every message for that name
      fails before any handler runs, provided one of its handlers is not null:
      in `SingleOrDefault`, unless an activation raised first. */
  lemma SameNameEventsCollide(handlers: map<string, seq<TypeId>>, eventTypes: seq<TypeId>,
                              t1: TypeId, t2: TypeId, body1: string, body2: string, run: TypeId -> HandlerRun)
    requires RegistryInvariant(handlers, eventTypes)
    requires t1 in eventTypes && t2 in eventTypes && t1 != t2 && t1.name == t2.name
    requires exists h :: h in handlers[t1.name] && run(h) != NullInstance
    ensures Publish(Event(t1, body1)).queue == Publish(Event(t2, body2)).queue
    ensures var d := Route(handlers, eventTypes, Publish(Event(t1, body1)).routingKey, run);
            d.invoked == [] && d.outcome.Faulted?
    ensures (forall h :: h in handlers[t1.name] ==> !run(h).ActivationFailed?) ==>
              Route(handlers, eventTypes, Publish(Event(t1, body1)).routingKey, run)
              == Dispatched([], Faulted(Exn(InvalidOperation, "Sequence contains more than one matching element")))
  {
    SameNameIsAmbiguous(eventTypes, t1, t2);
    var subs := handlers[t1.name];
    DispatchWhenUnresolved(subs, Ambiguous, run);
    var h :| h in subs && run(h) != NullInstance;
    NonNullBoundsFirst(subs, run, h);
  }

  lemma {:induction false} NonNullBoundsFirst(subs: seq<TypeId>, run: TypeId -> HandlerRun, h: TypeId)
    requires h in subs && run(h) != NullInstance
    ensures FirstNonNull(subs, run) < |subs|
    decreases |subs|
  {
    if subs[0] != h {
      NonNullBoundsFirst(subs[1..], run, h);
    }
  }

  /** On a bus whose consumer invariant holds, an event whose name has at
      least one handler is published to a queue with a consumer, indeed with
      one consumer per handler of that name. */
  lemma PublishedQueueHasConsumer(handlers: map<string, seq<TypeId>>, consumers: seq<string>, e: Event)
    requires ConsumerInvariant(handlers, consumers)
    requires HandlersOf(handlers, e.runtimeType.name) != []
    ensures Publish(e).queue in consumers
    ensures multiset(consumers)[Publish(e).queue] == |HandlersOf(handlers, e.runtimeType.name)|
  {
    assert multiset(consumers)[e.runtimeType.name] > 0;
  }

  /** A fresh bus on which `Subscribe<T, H1>` and then `Subscribe<T, H2>` are
      called. Both calls return normally (neither handler type is
      `System.RuntimeType`), even when H1 and H2 are the same type. */
  method SubscribeTwoHandlers(eventType: TypeId, h1: TypeId, h2: TypeId)
    returns (bus: RabbitMQBus, r1: SubscribeResult, r2: SubscribeResult)
    requires h1 != RuntimeTypeTag && h2 != RuntimeTypeTag
    ensures fresh(bus) && bus.Valid()
    ensures r1 == Subscribed && r2 == Subscribed
    ensures bus.eventTypes == [eventType]
    ensures bus.handlers == map[eventType.name := [h1, h2]]
    ensures bus.consumers == [eventType.name, eventType.name]
  {
    bus := new RabbitMQBus();
    LiteralCheckOnlyMatchesTag([], h1);
    r1 := bus.Subscribe(eventType, h1);
    assert r1 == Subscribed;
    assert HandlersOf(map[], eventType.name) + [h1] == [h1];
    assert bus.handlers == map[eventType.name := [h1]];
    assert bus.eventTypes == [] + [eventType] == [eventType];
    assert bus.consumers == [] + [eventType.name] == [eventType.name];
    LiteralCheckOnlyMatchesTag([h1], h2);
    r2 := bus.Subscribe(eventType, h2);
    assert r2 == Subscribed;
    assert [h1] + [h2] == [h1, h2];
    assert bus.handlers == map[eventType.name := [h1]][eventType.name := [h1, h2]];
  }

  /** Subscribing the same handler twice (the case the source's comment
      guards against): with the check as written, the second call returns
      normally, the handler is listed twice and a second consumer is started. */
  method SubscribeTwiceAsWritten(eventType: TypeId, handlerType: TypeId)
    returns (second: SubscribeResult, registered: seq<TypeId>, started: seq<string>)
    requires handlerType != RuntimeTypeTag
    ensures second == Subscribed
    ensures registered == [handlerType, handlerType]
    ensures started == [eventType.name, eventType.name]
  {
    var bus, first;
    bus, first, second := SubscribeTwoHandlers(eventType, handlerType, handlerType);
    registered, started := bus.handlers[eventType.name], bus.consumers;
  }

  /** The same calls with the intended check: the second throws
      `ArgumentException` and adds nothing. */
  method SubscribeTwiceIntended(eventType: TypeId, handlerType: TypeId)
    returns (second: SubscribeResult, registered: seq<TypeId>, started: seq<string>)
    ensures second == Rejected(DuplicateMessage(handlerType, eventType.name), "handlerType")
    ensures registered == [handlerType]
    ensures started == [eventType.name]
  {
    var bus := new RabbitMQBus();
    var first := bus.SubscribeIntended(eventType, handlerType);
    assert HandlersOf(map[], eventType.name) + [handlerType] == [handlerType];
    second := bus.SubscribeIntended(eventType, handlerType);
    registered, started := bus.handlers[eventType.name], bus.consumers;
  }

  /** Two handlers subscribed to one event both receive a published instance,
      in subscription order; an event whose name has no subscription reaches
      nobody and raises nothing. */
  method TwoHandlersReceive(eventType: TypeId, h1: TypeId, h2: TypeId, other: TypeId, body: string)
    returns (invoked: seq<TypeId>, raised: Option<Exn>, unrouted: seq<TypeId>, unroutedRaised: Option<Exn>)
    requires h1 != RuntimeTypeTag && h2 != RuntimeTypeTag
    requires other.name != eventType.name
    ensures invoked == [h1, h2] && raised == None
    ensures unrouted == [] && unroutedRaised == None
  {
    var bus, r1, r2 := SubscribeTwoHandlers(eventType, h1, h2);
    var run := (h: TypeId) => Handled;
    ResolveUnique(bus.eventTypes, eventType);
    AllHandlersInOrder([h1, h2], eventType, run);
    invoked, raised := bus.ConsumerReceived(DefaultExchangeDelivery(Publish(Event(eventType, body))), run);
    unrouted, unroutedRaised := bus.ConsumerReceived(DefaultExchangeDelivery(Publish(Event(other, body))), run);
  }

  /** A handler that throws on one message ends that message's walk (the
      second handler is not invoked, and `Consumer_Received` re-raises the
      message text as a plain `System.Exception`), but leaves the registry as
      it was: the next message on the same queue reaches both handlers. */
  method FailureThenNextMessage(eventType: TypeId, h1: TypeId, h2: TypeId, error: Exn, body: string)
    returns (firstInvoked: seq<TypeId>, firstRaised: Option<Exn>, nextInvoked: seq<TypeId>, nextRaised: Option<Exn>)
    requires h1 != RuntimeTypeTag && h2 != RuntimeTypeTag
    ensures firstInvoked == [h1] && firstRaised == Some(Exn(PlainException, error.message))
    ensures nextInvoked == [h1, h2] && nextRaised == None
  {
    var bus, r1, r2 := SubscribeTwoHandlers(eventType, h1, h2);
    var failing := (h: TypeId) => if h == h1 then Threw(error) else Handled;
    var completing := (h: TypeId) => Handled;
    ResolveUnique(bus.eventTypes, eventType);
    AllHandlersInOrder([h1, h2], eventType, completing);
    var delivery := DefaultExchangeDelivery(Publish(Event(eventType, body)));
    firstInvoked, firstRaised := bus.ConsumerReceived(delivery, failing);
    nextInvoked, nextRaised := bus.ConsumerReceived(delivery, completing);
  }
}
