/** Values and specification functions for the RabbitMQ event bus of
    MicroRabbit.Infra.Bus: .NET types reduced to (namespace, simple name),
    exceptions, the by-name resolution of an event type (LINQ
    SingleOrDefault), the duplicate-handler checks and the order in which
    one inbound message is dispatched to its handlers. */
module BusModel {

  /** A .NET `Type`, identified by its namespace and its simple `Name`. */
  datatype TypeId = TypeId(ns: string, name: string)

  /** The runtime type of every `System.Type` object (`System.RuntimeType`):
      what `k.GetType()` evaluates to when `k` is itself a `Type`. */
  const RuntimeTypeTag: TypeId := TypeId("System", "RuntimeType")

  /** A thrown .NET exception: its type's full name and its `Message`. */
  datatype Exn = Exn(typeName: string, message: string)

  const InvalidOperation := "System.InvalidOperationException"
  const ArgumentNull := "System.ArgumentNullException"
  const PlainException := "System.Exception"

  /** What a handler type does with one message. `Activator.CreateInstance`
      throws (`ActivationFailed`: no public parameterless constructor, or a
      constructor that throws, as the exception `CreateInstance` raises), or
      yields null (the handler is skipped); otherwise `Handle` is invoked and
      the awaited call completes or raises `Threw.error` (for a synchronous
      throw inside `Handle`, the `TargetInvocationException` with which
      `MethodInfo.Invoke` wraps it). */
  datatype HandlerRun = ActivationFailed(error: Exn) | NullInstance | Handled | Threw(error: Exn)

  /** The handler's run raises an exception, at activation or in `Handle`. */
  predicate Fails(r: HandlerRun)
  {
    r.ActivationFailed? || r.Threw?
  }

  /** Outcome of `_eventTypes.SingleOrDefault(t => t.Name == eventName)`. */
  datatype Resolution = NoMatch | Single(eventType: TypeId) | Ambiguous

  datatype Outcome = Completed | Faulted(error: Exn)

  datatype Option<T> = None | Some(value: T)

  /** The handlers whose `Handle` was called, in call order, and how the walk ended. */
  datatype Dispatched = Dispatched(invoked: seq<TypeId>, outcome: Outcome)

  /** A serialized event as handed to the broker, and as received from it. */
  datatype Event = Event(runtimeType: TypeId, body: string)
  datatype Outbound = Outbound(queue: string, exchange: string, routingKey: string, body: string)
  datatype Delivery = Delivery(routingKey: string, body: string)

  ghost predicate Distinct<T>(s: seq<T>)
  {
    forall i, j :: 0 <= i < j < |s| ==> s[i] != s[j]
  }

  /** The simple names of the types in `s`. */
  ghost function Names(s: seq<TypeId>): set<string>
  {
    set t | t in s :: t.name
  }

  /** LINQ `SingleOrDefault` by simple name: the one match, none, or (where
      .NET throws) more than one. */
  function SingleOrDefault(s: seq<TypeId>, name: string): (r: Resolution)
    ensures r.NoMatch? <==> (forall i :: 0 <= i < |s| ==> s[i].name != name)
    ensures r.Ambiguous? <==> (exists i, j :: 0 <= i < j < |s| && s[i].name == name && s[j].name == name)
    ensures r.Single? ==> r.eventType in s && r.eventType.name == name
  {
    if s == [] then NoMatch
    else
      var rest := SingleOrDefault(s[1..], name);
      if s[0].name != name then
        assert forall i :: 1 <= i < |s| ==> s[i] == s[1..][i - 1];
        AmbiguousShift(s, name);
        rest
      else if rest.NoMatch? then
        assert forall i :: 1 <= i < |s| ==> s[i] == s[1..][i - 1];
        Single(s[0])
      else
        assert exists j :: 0 < j < |s| && s[j].name == name by {
          var j :| 0 <= j < |s[1..]| && s[1..][j].name == name;
          assert s[j + 1] == s[1..][j];
        }
        Ambiguous
  }

  /** Two matches in `s` whose head does not match are two matches in its tail. */
  lemma AmbiguousShift(s: seq<TypeId>, name: string)
    requires s != [] && s[0].name != name
    ensures (exists i, j :: 0 <= i < j < |s| && s[i].name == name && s[j].name == name)
        <==> (exists i, j :: 0 <= i < j < |s[1..]| && s[1..][i].name == name && s[1..][j].name == name)
  {
    if exists i, j :: 0 <= i < j < |s| && s[i].name == name && s[j].name == name {
      var i, j :| 0 <= i < j < |s| && s[i].name == name && s[j].name == name;
      assert s[1..][i - 1] == s[i] && s[1..][j - 1] == s[j];
    }
    if exists i, j :: 0 <= i < j < |s[1..]| && s[1..][i].name == name && s[1..][j].name == name {
      var i, j :| 0 <= i < j < |s[1..]| && s[1..][i].name == name && s[1..][j].name == name;
      assert s[i + 1] == s[1..][i] && s[j + 1] == s[1..][j];
    }
  }

  /** In a duplicate-free list, a type whose simple name no other entry
      shares is what `SingleOrDefault` returns for that name. */
  lemma ResolveUnique(s: seq<TypeId>, t: TypeId)
    requires Distinct(s) && t in s
    requires forall u :: u in s && u.name == t.name ==> u == t
    ensures SingleOrDefault(s, t.name) == Single(t)
  {
    var k :| 0 <= k < |s| && s[k] == t;
    assert s[k].name == t.name;
  }

  /** Two registered types that share a simple name (different namespaces)
      make `SingleOrDefault` throw. */
  lemma SameNameIsAmbiguous(s: seq<TypeId>, t1: TypeId, t2: TypeId)
    requires t1 in s && t2 in s && t1 != t2 && t1.name == t2.name
    ensures SingleOrDefault(s, t1.name) == Ambiguous
  {
    var i :| 0 <= i < |s| && s[i] == t1;
    var j :| 0 <= j < |s| && s[j] == t2;
    if i < j {
      assert s[i].name == t1.name && s[j].name == t1.name;
    } else {
      assert s[j].name == t1.name && s[i].name == t1.name;
    }
  }

  /** The exception the loop body raises when the event type did not resolve:
      `SingleOrDefault` throws on two matches; on none it returns null and
      `MakeGenericType(null)` throws. */
  function ResolutionFault(r: Resolution): (e: Exn)
    requires !r.Single?
    ensures e.typeName == (if r.Ambiguous? then InvalidOperation else ArgumentNull)
  {
    if r.Ambiguous? then Exn(InvalidOperation, "Sequence contains more than one matching element")
    else Exn(ArgumentNull, "Value cannot be null.")
  }

  /** `k.GetType()` for a `Type` object `k`: the runtime type of the object,
      which is `System.RuntimeType` whatever type `k` denotes. */
  function GetType(k: TypeId): TypeId
  {
    RuntimeTypeTag
  }

  /** The duplicate check as the source writes it: `Any(k => k.GetType() == handlerType)`. */
  predicate LiteralAlreadyRegistered(registered: seq<TypeId>, handlerType: TypeId)
  {
    exists i :: 0 <= i < |registered| && GetType(registered[i]) == handlerType
  }

  /** The duplicate check the source's comment and exception describe:
      `Any(k => k == handlerType)`. */
  predicate AlreadyRegistered(registered: seq<TypeId>, handlerType: TypeId)
  {
    handlerType in registered
  }

  /** The literal check rejects exactly when the list is non-empty and the
      handler type is `System.RuntimeType` itself. */
  lemma LiteralCheckOnlyMatchesTag(registered: seq<TypeId>, handlerType: TypeId)
    ensures LiteralAlreadyRegistered(registered, handlerType) <==> registered != [] && handlerType == RuntimeTypeTag
  {
    if registered != [] {
      assert GetType(registered[0]) == RuntimeTypeTag;
    }
  }

  /** Counterexample to the literal check: a handler already in the list, other
      than the tag, is not detected. */
  lemma LiteralCheckAdmitsDuplicate(registered: seq<TypeId>, handlerType: TypeId)
    requires handlerType in registered && handlerType != RuntimeTypeTag
    ensures AlreadyRegistered(registered, handlerType)
    ensures !LiteralAlreadyRegistered(registered, handlerType)
  {
  }

  /** The exception message of a rejected subscription. */
  function DuplicateMessage(handlerType: TypeId, eventName: string): string
  {
    "handler Type " + handlerType.name + " already is registered for '" + eventName + "'"
  }

  /** The walk of `ProcessEvent` over one name's handler list, in list order:
      the handler is instantiated; a null instance is skipped; otherwise the
      event type is resolved and, if it resolves, the handler is invoked; the
      first exception ends the walk. `Handle` is called only once the event
      type has resolved. */
  function Dispatch(subs: seq<TypeId>, resolved: Resolution, run: TypeId -> HandlerRun): (d: Dispatched)
    ensures d.invoked != [] ==> resolved.Single?
    decreases |subs|
  {
    if subs == [] then Dispatched([], Completed)
    else
      var h := subs[0];
      var rest := Dispatch(subs[1..], resolved, run);
      if run(h).ActivationFailed? then Dispatched([], Faulted(run(h).error))
      else if run(h).NullInstance? then rest
      else if !resolved.Single? then Dispatched([], Faulted(ResolutionFault(resolved)))
      else if run(h).Threw? then Dispatched([h], Faulted(run(h).error))
      else Dispatched([h] + rest.invoked, rest.outcome)
  }

  /** One step of the walk, at position `i` of the list. */
  lemma DispatchStep(subs: seq<TypeId>, i: nat, resolved: Resolution, run: TypeId -> HandlerRun)
    requires i < |subs|
    ensures var h := subs[i];
            var rest := Dispatch(subs[i + 1..], resolved, run);
            Dispatch(subs[i..], resolved, run) ==
              if run(h).ActivationFailed? then Dispatched([], Faulted(run(h).error))
              else if run(h).NullInstance? then rest
              else if !resolved.Single? then Dispatched([], Faulted(ResolutionFault(resolved)))
              else if run(h).Threw? then Dispatched([h], Faulted(run(h).error))
              else Dispatched([h] + rest.invoked, rest.outcome)
  {
    assert subs[i..][1..] == subs[i + 1..];
  }

  /** The walk invokes only handlers of the list that were instantiated, and
      at most one call per list entry. */
  lemma {:induction false} DispatchInvokesOnlyListed(subs: seq<TypeId>, resolved: Resolution, run: TypeId -> HandlerRun)
    ensures var d := Dispatch(subs, resolved, run);
            && multiset(d.invoked) <= multiset(subs)
            && forall h :: h in d.invoked ==> h in subs && (run(h).Handled? || run(h).Threw?)
    decreases |subs|
  {
    if subs != [] {
      var h, rest := subs[0], Dispatch(subs[1..], resolved, run);
      var d := Dispatch(subs, resolved, run);
      DispatchInvokesOnlyListed(subs[1..], resolved, run);
      assert multiset(subs) == multiset{h} + multiset(subs[1..]) by {
        assert subs == [h] + subs[1..];
      }
      if run(h).ActivationFailed? || (!run(h).NullInstance? && !resolved.Single?) {
        assert d.invoked == [];
      } else if run(h).NullInstance? {
        assert d == rest;
        assert forall x :: x in subs[1..] ==> x in subs;
      } else if run(h).Threw? {
        assert d.invoked == [h];
      } else {
        assert d.invoked == [h] + rest.invoked;
        assert multiset(d.invoked) == multiset{h} + multiset(rest.invoked);
        assert forall x :: x in d.invoked ==> x == h || x in rest.invoked;
        assert forall x :: x in subs[1..] ==> x in subs;
      }
    }
  }

  /** `ProcessEvent` as a function of the registry: a name that is not a key
      dispatches to nobody. */
  function Route(handlers: map<string, seq<TypeId>>, eventTypes: seq<TypeId>, eventName: string,
                 run: TypeId -> HandlerRun): (d: Dispatched)
    ensures eventName !in handlers ==> d == Dispatched([], Completed)
  {
    if eventName in handlers then Dispatch(handlers[eventName], SingleOrDefault(eventTypes, eventName), run)
    else Dispatched([], Completed)
  }

  // ---------------------------------------------------------------------
  // An independent description of the walk: which handlers are instantiated,
  // where the first handler that raises stands, and where the first handler
  // that is not null stands.

  /** The handlers of `subs` whose activation yields an instance, in list order. */
  function Instantiated(subs: seq<TypeId>, run: TypeId -> HandlerRun): seq<TypeId>
  {
    if subs == [] then []
    else (if run(subs[0]).Handled? || run(subs[0]).Threw? then [subs[0]] else []) + Instantiated(subs[1..], run)
  }

  /** The index of the first handler of `subs` whose run raises, or `|subs|`. */
  function FirstFailure(subs: seq<TypeId>, run: TypeId -> HandlerRun): (k: nat)
    ensures k <= |subs|
    ensures k < |subs| ==> Fails(run(subs[k]))
    ensures forall j :: 0 <= j < k ==> !Fails(run(subs[j]))
  {
    if subs == [] then 0
    else if Fails(run(subs[0])) then 0
    else 1 + FirstFailure(subs[1..], run)
  }

  /** The index of the first handler of `subs` whose activation does not
      yield null, or `|subs|`. */
  function FirstNonNull(subs: seq<TypeId>, run: TypeId -> HandlerRun): (k: nat)
    ensures k <= |subs|
    ensures k < |subs| ==> !run(subs[k]).NullInstance?
    ensures forall j :: 0 <= j < k ==> run(subs[j]).NullInstance?
  {
    if subs == [] then 0
    else if !run(subs[0]).NullInstance? then 0
    else 1 + FirstNonNull(subs[1..], run)
  }

  /** When the event type resolves, `ProcessEvent` invokes every instantiated
      handler before the first one whose run raises, in registration order;
      that one is invoked too when it is `Handle` that raised, and not when
      its activation did; no handler after it is touched, and the walk fails
      with that exception. */
  lemma {:induction false} DispatchWhenResolved(subs: seq<TypeId>, t: TypeId, run: TypeId -> HandlerRun)
    ensures var k := FirstFailure(subs, run);
      Dispatch(subs, Single(t), run) ==
        if k == |subs| then Dispatched(Instantiated(subs, run), Completed)
        else Dispatched(Instantiated(subs[..k], run) + (if run(subs[k]).Threw? then [subs[k]] else []),
                        Faulted(run(subs[k]).error))
    decreases |subs|
  {
    if subs != [] {
      var k := FirstFailure(subs, run);
      DispatchWhenResolved(subs[1..], t, run);
      if k > 0 {
        assert subs[..k][1..] == subs[1..][..k - 1];
        assert subs[..k][0] == subs[0];
        if k < |subs| {
          assert subs[1..][k - 1] == subs[k];
        }
      }
    }
  }

  /** When the event type does not resolve, the walk invokes nobody. It
      completes when every activation yields null; otherwise it fails at the
      first handler that is not null: with that handler's activation error if
      its activation raised (before `SingleOrDefault` runs), and with the
      resolution error if not. */
  lemma {:induction false} DispatchWhenUnresolved(subs: seq<TypeId>, resolved: Resolution, run: TypeId -> HandlerRun)
    requires !resolved.Single?
    ensures var k := FirstNonNull(subs, run);
      Dispatch(subs, resolved, run) ==
        if k == |subs| then Dispatched([], Completed)
        else if run(subs[k]).ActivationFailed? then Dispatched([], Faulted(run(subs[k]).error))
        else Dispatched([], Faulted(ResolutionFault(resolved)))
    decreases |subs|
  {
    if subs != [] {
      DispatchWhenUnresolved(subs[1..], resolved, run);
    }
  }

  /** If no handler throws and all can be instantiated, every registered
      handler is invoked exactly in registration order. */
  lemma {:induction false} AllHandlersInOrder(subs: seq<TypeId>, t: TypeId, run: TypeId -> HandlerRun)
    requires forall h :: h in subs ==> run(h) == Handled
    ensures Dispatch(subs, Single(t), run) == Dispatched(subs, Completed)
    decreases |subs|
  {
    if subs != [] {
      assert subs[0] in subs;
      assert forall h :: h in subs[1..] ==> h in subs;
      AllHandlersInOrder(subs[1..], t, run);
      assert [subs[0]] + subs[1..] == subs;
    }
  }

  /** The broker message `Publish` produces: the queue it declares and the
      routing key it publishes with are both the event's runtime type `Name`,
      on the default exchange. */
  function Publish(e: Event): (m: Outbound)
    ensures m.queue == m.routingKey == e.runtimeType.name
    ensures m.exchange == "" && m.body == e.body
  {
    var eventName := e.runtimeType.name;
    Outbound(eventName, "", eventName, e.body)
  }

  /** The broker's default exchange hands a message to the consumer of the
      queue named by its routing key, with that routing key. */
  function DefaultExchangeDelivery(m: Outbound): Delivery
    requires m.exchange == ""
  {
    Delivery(m.routingKey, m.body)
  }
}
