# MicroRabbit event bus, modelled in Dafny

MicroRabbit's `RabbitMQBus` connects the microservices through RabbitMQ. It
keeps an in-process registry with two parts: a dictionary from an event's
simple type name to the list of handler types subscribed to it, and a list of
the event types seen so far.

- `Subscribe<T, TH>` adds `TH` to the list for `typeof(T).Name` and starts a
  consumer on the queue of that name.
- `Publish` serializes an event and sends it to the default exchange with the
  event's simple type name as routing key.
- `Consumer_Received` and `ProcessEvent` take one delivered message. They look
  up its routing key in the registry, instantiate every registered handler,
  resolve the event type by name with `SingleOrDefault`, and await each
  handler's `Handle` in turn. Any failure is re-raised as a plain
  `System.Exception` that carries the same message.

The project has two modules:

- `BusModel` (`bus_model.dfy`) holds the values: .NET types as
  (namespace, simple name), exceptions, deliveries. It also holds the pure
  parts: the `SingleOrDefault` resolution, the duplicate-handler check, the
  order in which one message is dispatched (`Dispatch`, `Route`), and an
  independent description of that order (`Instantiated`, `FirstFailure`,
  `FirstNonNull`).
- `RabbitMQ` (`rabbit_mq_bus.dfy`) holds the class `RabbitMQBus`. Its
  `handlers` and `eventTypes` fields are updated in place by `Subscribe`. A
  `consumers` field logs each queue on which `StartBasicConsume` began a
  consumer. `ProcessEvent` is a loop over the handler list, proved against
  `Dispatch`.

Two invariants are established by the constructor and kept by `Subscribe` and `SubscribeIntended` (`StartBasicConsume` alone adds a consumer, so only the whole `Subscribe` keeps the second):

- Every event type occurs once in the type list, and the dictionary's keys
  are exactly the simple names of those types.
- The number of consumers started on a queue equals the number of handlers
  registered under that name.

Handler behaviour cannot be seen from the bus. It comes in as a function
`run` from handler type to `HandlerRun`:

- `ActivationFailed(e)`: `Activator.CreateInstance` raised `e` (no public
  parameterless constructor, or a constructor that throws). The walk ends
  there, before `SingleOrDefault` and without calling `Handle`.
- `NullInstance`: `Activator.CreateInstance` gave null, and the handler is
  skipped.
- `Handled`: the awaited `Handle` call completed.
- `Threw(e)`: the awaited `Handle` call raised `e`. For a synchronous throw
  inside `Handle`, `e` is the `TargetInvocationException` with which
  `MethodInfo.Invoke` wraps it, and `Consumer_Received` re-raises that
  wrapper's message.

Two facts about the code that the model keeps:

- `StartBasicConsume<T>()` runs on every successful `Subscribe`
  (RabbitMQBus.cs:85), not only the first time an event name is registered.
  N handlers for one event therefore mean N consumers on one queue.
  `ConsumerInvariant` states exactly that, and `PublishedQueueHasConsumer`
  uses it.
- The duplicate check compares `k.GetType()` with the handler type
  (RabbitMQBus.cs:75). `k` is itself a `Type`, so `k.GetType()` is always
  `System.RuntimeType`, and the check never fires for a real handler type.
  The comment at RabbitMQBus.cs:74 and the exception at RabbitMQBus.cs:77-80
  show that a handler already registered was meant to be rejected. See
  "## Findings".

## Model

| member | source | states |
|---|---|---|
| RabbitMQ.RabbitMQBus.constructor | Infra.Bus/MicroRabbit.Infra.Bus/RabbitMQBus.cs:22-27 | a new bus has an empty dictionary, an empty event-type list and no consumers, and satisfies both invariants |
| RabbitMQ.RabbitMQBus.StartBasicConsume | Infra.Bus/MicroRabbit.Infra.Bus/RabbitMQBus.cs:90-120 | one more consumer is started, on the queue named by the event type's simple name; nothing else changes |
| RabbitMQ.RabbitMQBus.Subscribe | Infra.Bus/MicroRabbit.Infra.Bus/RabbitMQBus.cs:60-86 | as written: the event type is appended only if new; the call is rejected exactly when the literal `GetType()` check fires, with the formatted message and parameter name `handlerType`; on rejection the dictionary is unchanged and only the event type may have been appended; otherwise the handler is appended to the list of its event name and one consumer is started; both invariants are kept |
| RabbitMQ.RabbitMQBus.SubscribeIntended | Infra.Bus/MicroRabbit.Infra.Bus/RabbitMQBus.cs:74-83 | corrected duplicate check: rejected exactly when the handler is already in the list for the event name, and then the dictionary is unchanged and only the event type may have been appended; otherwise appended and one consumer started; keeps both invariants and that no list holds a handler twice |
| RabbitMQ.RabbitMQBus.ProcessEvent | Infra.Bus/MicroRabbit.Infra.Bus/RabbitMQBus.cs:141-168 | the handlers invoked and the outcome are those of `Route` on the current registry; an unregistered name invokes nobody and completes |
| RabbitMQ.RabbitMQBus.ConsumerReceived | Infra.Bus/MicroRabbit.Infra.Bus/RabbitMQBus.cs:123-136 | the routing key selects the handlers; no exception is raised exactly when dispatch completed; a failure is re-raised as `System.Exception` with the same message |
| BusModel.SingleOrDefault | Infra.Bus/MicroRabbit.Infra.Bus/RabbitMQBus.cs:155 | no match exactly when no type has the name; ambiguous exactly when two distinct positions have it; a single result is a listed type with that name |
| BusModel.ResolutionFault | Infra.Bus/MicroRabbit.Infra.Bus/RabbitMQBus.cs:155-161 | several matches fail with `InvalidOperationException`; no match fails with `ArgumentNullException` when the null type reaches `MakeGenericType` |
| BusModel.ResolveUnique | Infra.Bus/MicroRabbit.Infra.Bus/RabbitMQBus.cs:155 | a listed type whose simple name no other listed type shares resolves to itself |
| BusModel.SameNameIsAmbiguous | Infra.Bus/MicroRabbit.Infra.Bus/RabbitMQBus.cs:155 | two different listed types with one simple name make the resolution ambiguous |
| BusModel.GetType | Infra.Bus/MicroRabbit.Infra.Bus/RabbitMQBus.cs:75 | `k.GetType()` for a stored handler `k`, which is itself a `System.Type`: always `System.RuntimeType` |
| BusModel.LiteralAlreadyRegistered | Infra.Bus/MicroRabbit.Infra.Bus/RabbitMQBus.cs:75 | the duplicate predicate as written: some stored type's runtime type equals the new handler type (characterised by `LiteralCheckOnlyMatchesTag`) |
| BusModel.AlreadyRegistered | Infra.Bus/MicroRabbit.Infra.Bus/RabbitMQBus.cs:74-75 | the corrected duplicate predicate: the new handler type is already in the list, as the comment at line 74 intends |
| BusModel.DuplicateMessage | Infra.Bus/MicroRabbit.Infra.Bus/RabbitMQBus.cs:78 | the text of the `ArgumentException`: the handler type's name and the event name in the interpolated message |
| BusModel.LiteralCheckOnlyMatchesTag | Infra.Bus/MicroRabbit.Infra.Bus/RabbitMQBus.cs:75 | the check as written fires exactly when the list is non-empty and the new handler type is `System.RuntimeType` itself |
| BusModel.LiteralCheckAdmitsDuplicate | Infra.Bus/MicroRabbit.Infra.Bus/RabbitMQBus.cs:75 | a handler already in the list is a duplicate, yet the check as written lets it through |
| BusModel.Dispatch | Infra.Bus/MicroRabbit.Infra.Bus/RabbitMQBus.cs:148-166 | the foreach over one name's handler list; `Handle` is called on nobody unless the event type resolved to exactly one type |
| BusModel.DispatchStep | Infra.Bus/MicroRabbit.Infra.Bus/RabbitMQBus.cs:148-166 | one step of the walk at position i: stop at an activation that raised, skip a null instance, fail on an unresolved type, stop at a `Handle` that raised, otherwise invoke and continue |
| BusModel.DispatchInvokesOnlyListed | Infra.Bus/MicroRabbit.Infra.Bus/RabbitMQBus.cs:148-166 | the invoked handlers, as a multiset, are contained in the list, so no list entry is called twice; each invoked handler was instantiated |
| BusModel.Route | Infra.Bus/MicroRabbit.Infra.Bus/RabbitMQBus.cs:144-147 | a name that is not a dictionary key dispatches to nobody and completes |
| BusModel.FirstFailure | Infra.Bus/MicroRabbit.Infra.Bus/RabbitMQBus.cs:148-166 | the index of the first handler whose activation or `Handle` raises, or the list length; no handler before it raises |
| BusModel.FirstNonNull | Infra.Bus/MicroRabbit.Infra.Bus/RabbitMQBus.cs:151-152 | the index of the first handler whose activation does not yield null, or the list length; every handler before it yields null |
| BusModel.DispatchWhenResolved | Infra.Bus/MicroRabbit.Infra.Bus/RabbitMQBus.cs:148-166 | with a resolved type, the walk equals the reference functions: every instantiated handler before the first failure, in list order; then the failing handler too if its `Handle` raised, but not if its activation did; none after it; the walk fails with the exception the oracle gives |
| BusModel.DispatchWhenUnresolved | Infra.Bus/MicroRabbit.Infra.Bus/RabbitMQBus.cs:151-161 | with an unresolved type, nobody is invoked; the walk completes when every activation yields null, and otherwise fails at the first handler that is not null, with its activation error if its activation raised and with the resolution error if not |
| BusModel.AllHandlersInOrder | Infra.Bus/MicroRabbit.Infra.Bus/RabbitMQBus.cs:148-166 | when every handler instantiates and completes, all are invoked exactly in registration order |
| BusModel.Publish | Infra.Bus/MicroRabbit.Infra.Bus/RabbitMQBus.cs:34-56 | queue and routing key are the event's simple type name, the exchange is the default (empty) one, and the body is the serialized event |
| RabbitMQ.RegistryStep | Infra.Bus/MicroRabbit.Infra.Bus/RabbitMQBus.cs:67-72 | appending a new event type and keying its name keeps the type list duplicate-free and the keys equal to its names |
| RabbitMQ.ConsumerStep | Infra.Bus/MicroRabbit.Infra.Bus/RabbitMQBus.cs:83-85 | appending a handler and starting one consumer on its queue keeps one consumer per registered handler |
| RabbitMQ.RecordKeepsInvariants | Infra.Bus/MicroRabbit.Infra.Bus/RabbitMQBus.cs:63-81 | adding the event type if new and an empty list for its name if new (lines 67-72) keeps both invariants and list distinctness; this is the state a rejected call leaves, where the list was in fact already there, since the check at line 75 is false on an empty list |
| RabbitMQ.AppendKeepsInvariants | Infra.Bus/MicroRabbit.Infra.Bus/RabbitMQBus.cs:63-85 | the successful path keeps both invariants, and keeps list distinctness when the handler was not yet listed |
| RabbitMQ.RegisteredNameResolves | Infra.Bus/MicroRabbit.Infra.Bus/RabbitMQBus.cs:144-155 | for a name with a handler list, `SingleOrDefault` always finds at least one event type |
| RabbitMQ.PublishedEventReachesHandlers | Infra.Bus/MicroRabbit.Infra.Bus/RabbitMQBus.cs:34-166 | a published event whose type is registered and uniquely named reaches every handler of its name, in order, when they all complete |
| RabbitMQ.SameNameEventsCollide | Infra.Bus/MicroRabbit.Infra.Bus/RabbitMQBus.cs:43-155 | two event types with one simple name share a queue, and their messages fail before any handler runs; with `InvalidOperationException` when no activation raises |
| RabbitMQ.PublishedQueueHasConsumer | Infra.Bus/MicroRabbit.Infra.Bus/RabbitMQBus.cs:43-119 | on a bus whose consumer invariant holds, an event whose name has handlers is published to a queue that has a consumer, one per handler of that name |
| RabbitMQ.SubscribeTwoHandlers | Infra.Bus/MicroRabbit.Infra.Bus/RabbitMQBus.cs:60-86 | two different handlers for one event on a new bus are both accepted, listed in order, with two consumers on the one queue |
| RabbitMQ.SubscribeTwiceAsWritten | Infra.Bus/MicroRabbit.Infra.Bus/RabbitMQBus.cs:74-85 | as written, subscribing the same handler twice is accepted: the handler is listed twice and two consumers run |
| RabbitMQ.SubscribeTwiceIntended | Infra.Bus/MicroRabbit.Infra.Bus/RabbitMQBus.cs:74-81 | with the corrected check, the second subscription is rejected with the formatted message, and one handler and one consumer remain |
| RabbitMQ.TwoHandlersReceive | Infra.Bus/MicroRabbit.Infra.Bus/RabbitMQBus.cs:123-166 | a published event reaches both subscribed handlers in order without error; a message for another name reaches nobody |
| RabbitMQ.FailureThenNextMessage | Infra.Bus/MicroRabbit.Infra.Bus/RabbitMQBus.cs:123-166 | a throwing first handler stops its message (the second is not invoked) and is re-raised as `System.Exception`; the next message still reaches both handlers |

## Left out

- `SendCommand` (RabbitMQBus.cs:30) forwards to MediatR's `Send`, which is not part of this model.
- Connections, channels and `QueueDeclare`/`BasicPublish`/`BasicConsume` are broker I/O. `Publish` is modelled by the message it sends; a started consumer is modelled by an entry in `consumers`.
- JSON serialization, UTF-8 encoding and `DeserializeObject` are left out. The body is an opaque string carried unchanged, and the handler oracle sees only the handler type. A body that fails to deserialize (RabbitMQBus.cs:158) is therefore not modelled.
- Broker routing is assumed, not modelled: a message sent to the default exchange reaches the queue named by its routing key, with key and body unchanged. `DefaultExchangeDelivery` writes that assumption down for the scenarios.
- Broker failures are not modelled. If `StartBasicConsume` cannot connect after the handler was added (RabbitMQBus.cs:83-85), the source leaves the handler listed with no consumer, which `ConsumerInvariant` does not allow for. Likewise `Publish` can throw on connect (RabbitMQBus.cs:38-40); the model's `Publish` always produces its message. The two queue declarations also differ: `Publish` declares the queue without `autoDelete` (RabbitMQBus.cs:47), which the client library's `QueueDeclare` defaults to `true`, while `StartBasicConsume` declares it with `autoDelete: false` (RabbitMQBus.cs:110); the broker refuses a redeclaration with different arguments, so whichever of the two runs second on a live queue throws. This is read from the code and not modelled.
- Reflection (`Activator.CreateInstance`, `MakeGenericType`, `GetMethod("Handle").Invoke`) is replaced by the `run` oracle. The oracle is fixed for one message, so a handler behaves the same throughout one walk.
- `async`/`await` and concurrency: consumers run with `DispatchConsumersAsync`, and messages may be handled concurrently with `Subscribe`. The model handles one message at a time against a fixed registry.
- `autoAck: true`: a message that fails is already acknowledged and is lost; the model does not represent acknowledgement.
- `Event.TimeStamp` (Event.cs:7) reads the clock and is part of the serialized body only; it is left out.
- `ResolutionFault`: the `ArgumentNullException` message is written as "Value cannot be null."; the exact text (and the parameter name some runtimes append) is not modelled.
- `TypeId` keeps only namespace and simple name; generic arguments, assemblies and nested types are not represented.
- The banking controller, account service, repository and database context are callers of the bus, and are not part of this model.

## Findings

| source | as written | input that shows it | evidently intended | confidence | as-written member | corrected member |
|---|---|---|---|---|---|---|
| Infra.Bus/MicroRabbit.Infra.Bus/RabbitMQBus.cs:75 | `_handlers[eventName].Any(k => k.GetType() == handlerType)` compares the runtime type of each stored `Type` object (always `System.RuntimeType`) with the new handler type | `Subscribe<E, H>()` called twice on a new bus: the second call is accepted and `H` is listed twice, so every message invokes `H` twice; a second consumer also attaches to the same queue | `Any(k => k == handlerType)`: reject a handler already registered for the event name | high (not executed) | RabbitMQ.SubscribeTwiceAsWritten | RabbitMQ.RabbitMQBus.SubscribeIntended |
