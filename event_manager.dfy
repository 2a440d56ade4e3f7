/** The event listener table: cEventDispatcher (engine/src/event_manager.cpp)
    and the templated mEvent::Subscribe (engine/src/event_manager.hpp). Per
    event type there is one list of handlers in subscription order;
    subscribing finds or creates the type's list and appends, unsubscribing
    removes the first handler of the receiver, and sending invokes every
    handler of the type in order.

    Callbacks are opaque: a handler carries a token for its function, and
    Send returns the invocations it makes, in order, instead of running
    them. Receivers are objects compared by address, as the source compares
    pointers.

    The two files do not compile together: the .cpp defines cEventDispatcher
    and cEventHandler in namespace harpy, the header defines mEvent and
    cEvent in namespace realware, and the header's Subscribe inserts a
    cVector into a map of cIdVector pointers. The model keeps one listener
    table, the dispatcher's, and gives it the header's Subscribe by
    identifier as a second entry point. */
module Events {
  import opened Base
  import opened Identity

  /** eEventType: an event kind, by its enumerator value. */
  type EventType = nat

  /** An object that receives events: its address and its identifier. */
  datatype Receiver = Receiver(address: nat, id: Id)

  /** cEventHandler as stored in a type's list: the key it was added
      under, its receiver's address, its event type and its callback. */
  datatype Handler = Handler(key: seq<byte>, receiver: nat, eventType: EventType, callback: nat)

  /** The contents of a cDataBuffer. */
  datatype DataBuffer = DataBuffer(bytes: seq<byte>)

  /** One call of a handler's function with a data buffer. */
  datatype Invocation = Invocation(handler: Handler, data: DataBuffer)

  /** A freshly constructed cDataBuffer: empty. */
  function EmptyBuffer(): (d: DataBuffer)
    ensures |d.bytes| == 0
  {
    DataBuffer([])
  }

  /** The handlers of type t, none when the type has no list. */
  function HandlersOf(listeners: map<EventType, seq<Handler>>, t: EventType): seq<Handler>
  {
    if t in listeners then listeners[t] else []
  }

  /** Every handler invoked once with the same buffer, in list order. */
  function Broadcast(hs: seq<Handler>, data: DataBuffer): (r: seq<Invocation>)
    ensures |r| == |hs|
    ensures forall i :: 0 <= i < |hs| ==> r[i] == Invocation(hs[i], data)
  {
    if hs == [] then [] else Broadcast(hs[..|hs| - 1], data) + [Invocation(hs[|hs| - 1], data)]
  }

  /** The index of the first handler of the receiver at `address`. */
  function FirstOfReceiver(hs: seq<Handler>, address: nat): (r: Option<nat>)
    ensures r.Some? ==> r.value < |hs| && hs[r.value].receiver == address
    ensures r.Some? ==> forall k :: 0 <= k < r.value ==> hs[k].receiver != address
    ensures r.None? <==> forall k :: 0 <= k < |hs| ==> hs[k].receiver != address
  {
    if hs == [] then None
    else if hs[0].receiver == address then Some(0)
    else match FirstOfReceiver(hs[1..], address)
      case None => None
      case Some(k) => Some(k + 1)
  }

  /** The list with the first handler of the receiver removed, the others
      in their order; the list itself when the receiver has none. */
  function Unsubscribed(hs: seq<Handler>, address: nat): seq<Handler>
  {
    match FirstOfReceiver(hs, address)
    case None => hs
    case Some(i) => hs[..i] + hs[i + 1..]
  }

  /** The handlers of receivers other than the one at `address`, in order. */
  function Others(hs: seq<Handler>, address: nat): seq<Handler>
  {
    if hs == [] then []
    else (if hs[0].receiver != address then [hs[0]] else []) + Others(hs[1..], address)
  }

  /** The number of handlers of the receiver at `address`. */
  function CountOf(hs: seq<Handler>, address: nat): nat
  {
    if hs == [] then 0
    else (if hs[0].receiver == address then 1 else 0) + CountOf(hs[1..], address)
  }

  lemma {:induction false} OthersAppend(a: seq<Handler>, b: seq<Handler>, address: nat)
    ensures Others(a + b, address) == Others(a, address) + Others(b, address)
  {
    if a != [] {
      assert (a + b)[1..] == a[1..] + b;
      OthersAppend(a[1..], b, address);
    } else {
      assert a + b == b;
    }
  }

  lemma {:induction false} CountOfAppend(a: seq<Handler>, b: seq<Handler>, address: nat)
    ensures CountOf(a + b, address) == CountOf(a, address) + CountOf(b, address)
  {
    if a != [] {
      assert (a + b)[1..] == a[1..] + b;
      CountOfAppend(a[1..], b, address);
    } else {
      assert a + b == b;
    }
  }

  /** A prefix without handlers of the receiver keeps every handler. */
  lemma {:induction false} NoneOfReceiver(hs: seq<Handler>, address: nat)
    requires forall k :: 0 <= k < |hs| ==> hs[k].receiver != address
    ensures Others(hs, address) == hs && CountOf(hs, address) == 0
  {
    if hs != [] {
      NoneOfReceiver(hs[1..], address);
    }
  }

  /** Splitting a list at its first handler of the receiver. */
  lemma SplitAtFirst(hs: seq<Handler>, address: nat, i: nat)
    requires FirstOfReceiver(hs, address) == Some(i)
    ensures hs == hs[..i] + [hs[i]] + hs[i + 1..]
    ensures Others(hs, address) == hs[..i] + Others(hs[i + 1..], address)
    ensures CountOf(hs, address) == 1 + CountOf(hs[i + 1..], address)
  {
    assert hs == hs[..i] + ([hs[i]] + hs[i + 1..]);
    NoneOfReceiver(hs[..i], address);
    OthersAppend(hs[..i], [hs[i]] + hs[i + 1..], address);
    CountOfAppend(hs[..i], [hs[i]] + hs[i + 1..], address);
    assert ([hs[i]] + hs[i + 1..])[1..] == hs[i + 1..];
  }

  /** Unsubscribing keeps the handlers of every other receiver, in their
      order. */
  lemma UnsubscribedKeepsOthers(hs: seq<Handler>, address: nat)
    ensures Others(Unsubscribed(hs, address), address) == Others(hs, address)
  {
    match FirstOfReceiver(hs, address)
    case None =>
    case Some(i) =>
      SplitAtFirst(hs, address, i);
      NoneOfReceiver(hs[..i], address);
      OthersAppend(hs[..i], hs[i + 1..], address);
  }

  /** Unsubscribing removes exactly one handler of the receiver when it has
      any, and none otherwise; the list is one shorter exactly then. */
  lemma UnsubscribedRemovesOne(hs: seq<Handler>, address: nat)
    ensures CountOf(hs, address) > 0 ==>
              CountOf(Unsubscribed(hs, address), address) == CountOf(hs, address) - 1
              && |Unsubscribed(hs, address)| == |hs| - 1
    ensures CountOf(hs, address) == 0 ==> Unsubscribed(hs, address) == hs
  {
    match FirstOfReceiver(hs, address)
    case None =>
      NoneOfReceiver(hs, address);
    case Some(i) =>
      SplitAtFirst(hs, address, i);
      NoneOfReceiver(hs[..i], address);
      CountOfAppend(hs[..i], hs[i + 1..], address);
  }

  /** Unsubscribing a receiver right after subscribing it to a list that had
      none of its handlers gives the list back. */
  lemma UnsubscribeUndoesSubscribe(hs: seq<Handler>, h: Handler)
    requires CountOf(hs, h.receiver) == 0
    ensures Unsubscribed(hs + [h], h.receiver) == hs
  {
    CountOfAppend(hs, [h], h.receiver);
    CountZeroHasNone(hs, h.receiver);
    var i := |hs|;
    assert (hs + [h])[i] == h;
    assert FirstOfReceiver(hs + [h], h.receiver) == Some(i);
    assert (hs + [h])[..i] == hs;
  }

  /** A count of zero means no handler of the receiver. */
  lemma {:induction false} CountZeroHasNone(hs: seq<Handler>, address: nat)
    requires CountOf(hs, address) == 0
    ensures forall k :: 0 <= k < |hs| ==> hs[k].receiver != address
  {
    if hs != [] {
      CountZeroHasNone(hs[1..], address);
      assert forall k :: 1 <= k < |hs| ==> hs[k] == hs[1..][k - 1];
    }
  }

  /** Every handler in the list of type t has type t. */
  ghost predicate Typed(listeners: map<EventType, seq<Handler>>)
  {
    forall t, k :: t in listeners && 0 <= k < |listeners[t]| ==> listeners[t][k].eventType == t
  }

  /** Sending after a subscription invokes the earlier handlers of the type
      and then the new one. */
  lemma SendAfterSubscribe(listeners: map<EventType, seq<Handler>>, t: EventType,
                           h: Handler, data: DataBuffer)
    ensures var after := listeners[t := HandlersOf(listeners, t) + [h]];
            Broadcast(HandlersOf(after, t), data) == Broadcast(HandlersOf(listeners, t), data) + [Invocation(h, data)]
  {
    var hs := HandlersOf(listeners, t) + [h];
    assert hs[..|hs| - 1] == HandlersOf(listeners, t);
  }

  class EventDispatcher {
    /** `_listeners`: at most one list per event type. */
    var listeners: map<EventType, seq<Handler>>

    ghost predicate Valid()
      reads this
    {
      Typed(listeners)
    }

    /** cEventDispatcher(context): no lists. */
    constructor ()
      ensures Valid() && listeners == map[]
    {
      listeners := map[];
    }

    /** mEvent::Subscribe(id, type, args): the type's list is created when
        it has none, then one handler stored under `key` goes at its end;
        the lists of other types stay as they are. */
    method SubscribeKeyed(key: seq<byte>, t: EventType, receiver: Receiver, callback: nat)
      requires Valid()
      modifies this
      ensures Valid()
      ensures t in listeners && listeners.Keys == old(listeners).Keys + {t}
      ensures listeners[t] == HandlersOf(old(listeners), t)
                              + [Handler(key, receiver.address, t, callback)]
      ensures forall u :: u != t && u in old(listeners) ==> listeners[u] == old(listeners)[u]
    {
      if t !in listeners {
        listeners := listeners[t := []];
      }
      listeners := listeners[t := listeners[t] + [Handler(key, receiver.address, t, callback)]];
    }

    /** cEventDispatcher::Subscribe(receiver, type, function): as above,
        keyed by the receiver's identifier. */
    method Subscribe(receiver: Receiver, t: EventType, callback: nat)
      requires Valid()
      modifies this
      ensures Valid()
      ensures t in listeners && listeners.Keys == old(listeners).Keys + {t}
      ensures listeners[t] == HandlersOf(old(listeners), t)
                              + [Handler(receiver.id, receiver.address, t, callback)]
      ensures forall u :: u != t && u in old(listeners) ==> listeners[u] == old(listeners)[u]
    {
      SubscribeKeyed(receiver.id, t, receiver, callback);
    }

    /** Unsubscribe(receiver, type): nothing for a type without a list;
        otherwise the scan removes the first handler whose receiver is the
        object, if there is one. */
    method Unsubscribe(receiver: Receiver, t: EventType)
      requires Valid()
      modifies this
      ensures Valid()
      ensures t !in old(listeners) ==> listeners == old(listeners)
      ensures t in old(listeners) ==>
                listeners == old(listeners)[t := Unsubscribed(old(listeners)[t], receiver.address)]
    {
      if t !in listeners {
        return;
      }
      var events := listeners[t];
      var i := 0;
      while i < |events|
        invariant i <= |events|
        invariant listeners == old(listeners)
        invariant forall k :: 0 <= k < i ==> events[k].receiver != receiver.address
      {
        if events[i].receiver == receiver.address {
          assert FirstOfReceiver(events, receiver.address) == Some(i);
          listeners := listeners[t := events[..i] + events[i + 1..]];
          return;
        }
        i := i + 1;
      }
    }

    /** Send(type, data): nothing for a type without a list; otherwise every
        handler of the type, in order, with the same buffer. */
    method Send(t: EventType, data: DataBuffer) returns (invoked: seq<Invocation>)
      ensures invoked == Broadcast(HandlersOf(listeners, t), data)
    {
      invoked := [];
      if t !in listeners {
        return;
      }
      var events := listeners[t];
      var i := 0;
      while i < |events|
        invariant i <= |events|
        invariant invoked == Broadcast(events[..i], data)
      {
        assert events[..i + 1][..i] == events[..i];
        invoked := invoked + [Invocation(events[i], data)];
        i := i + 1;
      }
      assert events[..|events|] == events;
    }

    /** Send(type): Send with a freshly constructed, empty buffer. */
    method SendWithoutData(t: EventType) returns (invoked: seq<Invocation>)
      ensures invoked == Broadcast(HandlersOf(listeners, t), EmptyBuffer())
    {
      invoked := Send(t, EmptyBuffer());
    }
  }
}
