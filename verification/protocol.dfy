/**
 The vocabulary shared by every part of the input controller: the integer
 widths of the ivi_input protocol, the ilmInputDevice bitmask, the five
 events a controller client can receive, and the fan-out of one event to
 every bound controller.
 */
module Protocol {

  /** Unsigned and signed 32-bit protocol integers. */
  type uint32 = x: int | 0 <= x < 0x1_0000_0000
  type int32 = x: int | -0x8000_0000 <= x < 0x8000_0000

  /** An ilmInputDevice bitmask. */
  type DeviceMask = bv32

  const Keyboard: DeviceMask := 1
  const Pointer: DeviceMask := 2
  const Touch: DeviceMask := 4

  /** ILM_TRUE / ILM_FALSE as they travel in the `enabled` and `accepted` arguments. */
  const IlmTrue: int32 := 1
  const IlmFalse: int32 := 0

  /**
   What an input_focus with `enabled` does to a focus mask: ILM_TRUE sets
   the classes of `device`, any other value clears them, and no other class
   changes.
   */
  function Switch(focus: DeviceMask, device: DeviceMask, enabled: int32): (r: DeviceMask)
    ensures r & !device == focus & !device
    ensures enabled == IlmTrue ==> r & device == device
    ensures enabled != IlmTrue ==> r & device == 0
  {
    if enabled == IlmTrue then focus | device else focus & !device
  }

  /** The seat name every new surface accepts. */
  const DefaultSeat: string := "default"

  /** A bound controller client, identified by its protocol resource. */
  type ControllerId = nat

  datatype Option<T> = None | Some(value: T)

  /** The events of the ivi_input interface. */
  datatype Message =
    | SeatCreated(seatName: string, capabilities: DeviceMask)
    | SeatCapabilities(seatName: string, capabilities: DeviceMask)
    | SeatDestroyed(seatName: string)
    | InputFocus(surface: uint32, device: DeviceMask, enabled: int32)
    | InputAcceptance(surface: uint32, seat: string, accepted: int32)

  /** One event delivered to one controller. */
  datatype Event = Event(target: ControllerId, message: Message)

  /** The result of a handler: the new value of the state it owns and the events it sent. */
  datatype Transition<S> = Transition(next: S, events: seq<Event>)

  /** True when no element occurs twice. */
  ghost predicate NoDuplicates<T>(s: seq<T>) {
    forall i, j :: 0 <= i < j < |s| ==> s[i] != s[j]
  }

  /** Position of the first element equal to `x`, or -1 when there is none. */
  function IndexOf<T(==)>(s: seq<T>, x: T): (i: int)
    ensures -1 <= i < |s|
    ensures i == -1 <==> x !in s
    ensures 0 <= i ==> s[i] == x && x !in s[..i]
  {
    if s == [] then -1
    else if s[0] == x then 0
    else
      var j := IndexOf(s[1..], x);
      assert s[1..][..if j < 0 then 0 else j] == s[1..if j < 0 then 1 else j + 1];
      if j < 0 then -1 else j + 1
  }

  /** The sequence without element `k`, later elements shifted one place towards the front. */
  function DropAt<T>(s: seq<T>, k: nat): (r: seq<T>)
    requires k < |s|
    ensures |r| == |s| - 1
    ensures forall i :: 0 <= i < k ==> r[i] == s[i]
    ensures forall i :: k <= i < |r| ==> r[i] == s[i + 1]
    ensures multiset(r) == multiset(s) - multiset{s[k]}
  {
    assert s == s[..k] + [s[k]] + s[k + 1..];
    s[..k] + s[k + 1..]
  }

  /** Dropping an element past the head keeps the head in front. */
  lemma DropAtCons<T>(s: seq<T>, k: nat)
    requires k + 1 < |s|
    ensures DropAt(s, k + 1) == [s[0]] + DropAt(s[1..], k)
  {
    assert s[..k + 1] == [s[0]] + s[1..][..k];
    assert s[k + 2..] == s[1..][k + 1..];
  }

  /** Where each part of a three-part concatenation lands. */
  lemma ConcatIndex<T>(a: seq<T>, b: seq<T>, d: seq<T>)
    ensures forall i :: 0 <= i < |a| ==> (a + b + d)[i] == a[i]
    ensures forall j :: 0 <= j < |b| ==> (a + b + d)[|a| + j] == b[j]
    ensures forall k :: 0 <= k < |d| ==> (a + b + d)[|a| + |b| + k] == d[k]
  {
  }

  /** Putting a new element in front of a duplicate-free sequence keeps it duplicate-free. */
  lemma PrependDistinct<T>(x: T, s: seq<T>)
    requires x !in s && NoDuplicates(s)
    ensures NoDuplicates([x] + s)
  {
    var r := [x] + s;
    forall i, j | 0 <= i < j < |r| ensures r[i] != r[j] {
      assert r[j] == s[j - 1];
      if i > 0 {
        assert r[i] == s[i - 1];
      }
    }
  }

  /** Dropping an element of a duplicate-free sequence removes every trace of it. */
  lemma DropAtDistinct<T>(s: seq<T>, k: nat)
    requires k < |s| && NoDuplicates(s)
    ensures NoDuplicates(DropAt(s, k)) && s[k] !in DropAt(s, k)
  {
    var r := DropAt(s, k);
    forall i, j | 0 <= i < j < |r| ensures r[i] != r[j] {
      assert r[i] == s[if i < k then i else i + 1];
      assert r[j] == s[if j < k then j else j + 1];
    }
    forall j | 0 <= j < |r| ensures r[j] != s[k] {
      assert r[j] == s[if j < k then j else j + 1];
    }
  }

  /** Sending `m` to every controller of the list, in list order (send_input_focus and friends). */
  function Broadcast(controllers: seq<ControllerId>, m: Message): (events: seq<Event>)
    ensures |events| == |controllers|
    ensures forall i :: 0 <= i < |events| ==> events[i] == Event(controllers[i], m)
  {
    if controllers == [] then []
    else [Event(controllers[0], m)] + Broadcast(controllers[1..], m)
  }

  /** The messages controller `c` receives from a trace of events, in trace order. */
  function Received(events: seq<Event>, c: ControllerId): (ms: seq<Message>)
    ensures |ms| <= |events|
    ensures forall m :: m in ms ==> Event(c, m) in events
  {
    if events == [] then []
    else
      (if events[0].target == c then [events[0].message] else [])
      + Received(events[1..], c)
  }

  lemma {:induction false} ReceivedAppend(a: seq<Event>, b: seq<Event>, c: ControllerId)
    ensures Received(a + b, c) == Received(a, c) + Received(b, c)
  {
    if a == [] {
      assert a + b == b;
    } else {
      var head := if a[0].target == c then [a[0].message] else [];
      assert (a + b)[0] == a[0];
      assert (a + b)[1..] == a[1..] + b;
      ReceivedAppend(a[1..], b, c);
      assert Received(a + b, c) == head + Received(a[1..] + b, c);
      assert Received(a, c) == head + Received(a[1..], c);
    }
  }

  /** Every event of the trace is addressed to `c`; `c` then receives the trace's messages in order. */
  lemma {:induction false} ReceivedAllTargeted(events: seq<Event>, c: ControllerId)
    requires forall i :: 0 <= i < |events| ==> events[i].target == c
    ensures |Received(events, c)| == |events|
    ensures forall i :: 0 <= i < |events| ==> Received(events, c)[i] == events[i].message
  {
    if events != [] {
      ReceivedAllTargeted(events[1..], c);
    }
  }

  /** A broadcast reaches each bound controller exactly once and nobody else. */
  lemma {:induction false} ReceivedBroadcast(controllers: seq<ControllerId>, m: Message, c: ControllerId)
    requires NoDuplicates(controllers)
    ensures Received(Broadcast(controllers, m), c) == if c in controllers then [m] else []
  {
    if controllers != [] {
      var rest := controllers[1..];
      assert NoDuplicates(rest) by {
        forall i, j | 0 <= i < j < |rest| ensures rest[i] != rest[j] {
          assert rest[i] == controllers[i + 1] && rest[j] == controllers[j + 1];
        }
      }
      ReceivedBroadcast(rest, m, c);
      assert Broadcast(controllers, m)[1..] == Broadcast(rest, m);
      if controllers[0] == c {
        assert c !in rest by {
          forall j | 0 <= j < |rest| ensures rest[j] != c {
            assert rest[j] == controllers[j + 1];
          }
        }
      } else {
        assert c in controllers <==> c in rest;
      }
    }
  }

  /** Sending each message of `ms` in turn, each one to every controller. */
  function BroadcastEach(controllers: seq<ControllerId>, ms: seq<Message>): (events: seq<Event>)
    ensures |events| == |ms| * |controllers|
  {
    if ms == [] then []
    else Broadcast(controllers, ms[0]) + BroadcastEach(controllers, ms[1..])
  }

  /** Each bound controller receives every message of the series, in order, and nothing else. */
  lemma {:induction false} ReceivedBroadcastEach(controllers: seq<ControllerId>, ms: seq<Message>, c: ControllerId)
    requires NoDuplicates(controllers)
    ensures Received(BroadcastEach(controllers, ms), c) == if c in controllers then ms else []
  {
    if ms != [] {
      var head := Broadcast(controllers, ms[0]);
      var tail := BroadcastEach(controllers, ms[1..]);
      assert BroadcastEach(controllers, ms) == head + tail;
      ReceivedAppend(head, tail, c);
      ReceivedBroadcast(controllers, ms[0], c);
      ReceivedBroadcastEach(controllers, ms[1..], c);
      if c in controllers {
        assert Received(head, c) + Received(tail, c) == [ms[0]] + ms[1..] == ms;
      } else {
        assert Received(head, c) + Received(tail, c) == [];
      }
    }
  }

}
