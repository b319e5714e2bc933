/**
 The bound controller clients: binding one, which replays the current seat,
 focus and acceptance state to that client alone, and unbinding one.
 */
module ControllerBroadcast {
  import opened Protocol
  import opened SeatRegistry
  import opened AcceptanceTable

  /** One seat_created per seat, in seat list order. */
  function SeatMessages(seats: seq<Seat>): (ms: seq<Message>)
    ensures |ms| == |seats|
    ensures forall i :: 0 <= i < |seats| ==>
      ms[i] == SeatCreated(seats[i].name, Capabilities(seats[i].devices))
  {
    if seats == [] then []
    else [SeatCreated(seats[0].name, Capabilities(seats[0].devices))] + SeatMessages(seats[1..])
  }

  /** One input_focus per surface context with its whole focus mask, sent as enabled. */
  function FocusMessages(surfaces: seq<Surface>): (ms: seq<Message>)
    ensures |ms| == |surfaces|
    ensures forall j :: 0 <= j < |surfaces| ==>
      ms[j] == InputFocus(surfaces[j].id, surfaces[j].focus, IlmTrue)
  {
    if surfaces == [] then []
    else [InputFocus(surfaces[0].id, surfaces[0].focus, IlmTrue)] + FocusMessages(surfaces[1..])
  }

  /** One input_acceptance per accepted name of one surface, in array order. */
  function NameMessages(id: uint32, names: seq<string>): (ms: seq<Message>)
    ensures |ms| == |names|
    ensures forall k :: 0 <= k < |names| ==> ms[k] == InputAcceptance(id, names[k], IlmTrue)
  {
    if names == [] then []
    else [InputAcceptance(id, names[0], IlmTrue)] + NameMessages(id, names[1..])
  }

  /** The total number of accepted names over all surface contexts. */
  function AcceptedCount(surfaces: seq<Surface>): nat
  {
    if surfaces == [] then 0 else |surfaces[0].accepted| + AcceptedCount(surfaces[1..])
  }

  /** The acceptance part of the replay: surface by surface, each surface's names in order. */
  function AcceptanceMessages(surfaces: seq<Surface>): (ms: seq<Message>)
    ensures |ms| == AcceptedCount(surfaces)
    ensures surfaces != [] ==>
      ms[..|surfaces[0].accepted|] == NameMessages(surfaces[0].id, surfaces[0].accepted)
  {
    if surfaces == [] then []
    else
      var head := NameMessages(surfaces[0].id, surfaces[0].accepted);
      var ms := head + AcceptanceMessages(surfaces[1..]);
      assert ms[..|head|] == head;
      ms
  }

  /**
   The k-th accepted name of the j-th surface context is sent right after the
   names of all earlier contexts: surface by surface, each in array order.
   */
  lemma {:induction false} AcceptanceMessagesAt(surfaces: seq<Surface>, j: nat, k: nat)
    requires j < |surfaces| && k < |surfaces[j].accepted|
    decreases j
    ensures AcceptedCount(surfaces[..j]) + k < AcceptedCount(surfaces)
    ensures AcceptanceMessages(surfaces)[AcceptedCount(surfaces[..j]) + k]
         == InputAcceptance(surfaces[j].id, surfaces[j].accepted[k], IlmTrue)
  {
    if j == 0 {
      AcceptanceFirst(surfaces, k);
    } else {
      var rest := surfaces[1..];
      AcceptanceMessagesAt(rest, j - 1, k);
      var q := AcceptedCount(rest[..j - 1]) + k;
      assert rest[j - 1] == surfaces[j];
      AcceptanceLater(surfaces, j, k, q);
    }
  }

  /** The first context's names open the acceptance part. */
  lemma AcceptanceFirst(surfaces: seq<Surface>, k: nat)
    requires surfaces != [] && k < |surfaces[0].accepted|
    ensures AcceptedCount(surfaces[..0]) + k < AcceptedCount(surfaces)
    ensures AcceptanceMessages(surfaces)[AcceptedCount(surfaces[..0]) + k]
         == InputAcceptance(surfaces[0].id, surfaces[0].accepted[k], IlmTrue)
  {
    assert surfaces[..0] == [];
    var head := NameMessages(surfaces[0].id, surfaces[0].accepted);
    assert AcceptanceMessages(surfaces) == head + AcceptanceMessages(surfaces[1..]);
  }

  /** A later context's k-th name sits where it sat in the rest, shifted by the first context's names. */
  lemma AcceptanceLater(surfaces: seq<Surface>, j: nat, k: nat, q: nat)
    requires 0 < j < |surfaces| && k < |surfaces[j].accepted|
    requires q == AcceptedCount(surfaces[1..][..j - 1]) + k && q < AcceptedCount(surfaces[1..])
    requires AcceptanceMessages(surfaces[1..])[q] == InputAcceptance(surfaces[j].id, surfaces[j].accepted[k], IlmTrue)
    ensures AcceptedCount(surfaces[..j]) + k < AcceptedCount(surfaces)
    ensures AcceptanceMessages(surfaces)[AcceptedCount(surfaces[..j]) + k]
         == InputAcceptance(surfaces[j].id, surfaces[j].accepted[k], IlmTrue)
  {
    var rest := surfaces[1..];
    var p := AcceptedCount(surfaces[..j]) + k;
    AcceptedCountTake(surfaces, j);
    AcceptanceShift(surfaces, q, p);
    var s := surfaces[j];
    assert AcceptanceMessages(rest)[q] == InputAcceptance(s.id, s.accepted[k], IlmTrue);
    assert AcceptanceMessages(surfaces)[p] == AcceptanceMessages(rest)[q];
  }

  /** After the first context's names come the rest's messages, unchanged. */
  lemma AcceptanceShift(surfaces: seq<Surface>, i: nat, p: nat)
    requires surfaces != [] && i < AcceptedCount(surfaces[1..])
    requires p == |surfaces[0].accepted| + i
    ensures p < AcceptedCount(surfaces)
    ensures AcceptanceMessages(surfaces)[p] == AcceptanceMessages(surfaces[1..])[i]
  {
    var head := NameMessages(surfaces[0].id, surfaces[0].accepted);
    var tail := AcceptanceMessages(surfaces[1..]);
    assert AcceptanceMessages(surfaces) == head + tail;
    assert (head + tail)[|head| + i] == tail[i];
  }

  /** The names before the j-th context are the first context's names and those before it in the rest. */
  lemma AcceptedCountTake(surfaces: seq<Surface>, j: nat)
    requires 0 < j <= |surfaces|
    ensures AcceptedCount(surfaces[..j]) == |surfaces[0].accepted| + AcceptedCount(surfaces[1..][..j - 1])
  {
    var p := surfaces[..j];
    assert p[0] == surfaces[0] && p[1..] == surfaces[1..][..j - 1];
  }

  function SendTo(c: ControllerId, ms: seq<Message>): (events: seq<Event>)
    ensures |events| == |ms|
    ensures forall i :: 0 <= i < |ms| ==> events[i] == Event(c, ms[i])
  {
    if ms == [] then [] else [Event(c, ms[0])] + SendTo(c, ms[1..])
  }

  /**
   bind_ivi_input: the new controller goes to the head of the list and alone
   receives seat_created for each seat, then input_focus for each surface
   context (focus 0 included), then input_acceptance for each accepted name.
   */
  function Bind(seats: seq<Seat>, surfaces: seq<Surface>, controllers: seq<ControllerId>,
                c: ControllerId): (t: Transition<seq<ControllerId>>)
    requires c !in controllers
    ensures t.next == [c] + controllers
    ensures NoDuplicates(controllers) ==> NoDuplicates(t.next)
    ensures |t.events| == |seats| + |surfaces| + AcceptedCount(surfaces)
    ensures forall i :: 0 <= i < |t.events| ==> t.events[i].target == c
    ensures forall i :: 0 <= i < |seats| ==>
      t.events[i].message == SeatCreated(seats[i].name, Capabilities(seats[i].devices))
    ensures forall j :: 0 <= j < |surfaces| ==>
      t.events[|seats| + j].message == InputFocus(surfaces[j].id, surfaces[j].focus, IlmTrue)
    ensures forall k :: 0 <= k < AcceptedCount(surfaces) ==>
      t.events[|seats| + |surfaces| + k].message == AcceptanceMessages(surfaces)[k]
  {
    var ms := SeatMessages(seats) + FocusMessages(surfaces) + AcceptanceMessages(surfaces);
    ReplayEvents(seats, surfaces, c);
    var next := [c] + controllers;
    assert NoDuplicates(controllers) ==> NoDuplicates(next) by {
      if NoDuplicates(controllers) {
        PrependDistinct(c, controllers);
      }
    }
    Transition(next, SendTo(c, ms))
  }

  /** The replay sent to `c`, event by event: the seats, then the focus masks, then the accepted names. */
  lemma ReplayEvents(seats: seq<Seat>, surfaces: seq<Surface>, c: ControllerId)
    ensures var events := SendTo(c, SeatMessages(seats) + FocusMessages(surfaces) + AcceptanceMessages(surfaces));
      && |events| == |seats| + |surfaces| + AcceptedCount(surfaces)
      && (forall i :: 0 <= i < |events| ==> events[i].target == c)
      && (forall i :: 0 <= i < |seats| ==>
            events[i].message == SeatCreated(seats[i].name, Capabilities(seats[i].devices)))
      && (forall j :: 0 <= j < |surfaces| ==>
            events[|seats| + j].message == InputFocus(surfaces[j].id, surfaces[j].focus, IlmTrue))
      && (forall k :: 0 <= k < AcceptedCount(surfaces) ==>
            events[|seats| + |surfaces| + k].message == AcceptanceMessages(surfaces)[k])
  {
    var a, b, d := SeatMessages(seats), FocusMessages(surfaces), AcceptanceMessages(surfaces);
    var events := SendTo(c, a + b + d);
    ConcatIndex(a, b, d);
    forall i | 0 <= i < |seats|
      ensures events[i].message == SeatCreated(seats[i].name, Capabilities(seats[i].devices))
    {
      assert events[i] == Event(c, a[i]);
    }
    forall j | 0 <= j < |surfaces|
      ensures events[|seats| + j].message == InputFocus(surfaces[j].id, surfaces[j].focus, IlmTrue)
    {
      assert events[|a| + j] == Event(c, b[j]);
    }
    forall k | 0 <= k < AcceptedCount(surfaces)
      ensures events[|seats| + |surfaces| + k].message == d[k]
    {
      assert events[|a| + |b| + k] == Event(c, d[k]);
    }
  }

  /** What the new controller receives from binding: the three replay series back to back. */
  lemma BindReplay(seats: seq<Seat>, surfaces: seq<Surface>, controllers: seq<ControllerId>, c: ControllerId)
    requires c !in controllers
    ensures Received(Bind(seats, surfaces, controllers, c).events, c)
         == SeatMessages(seats) + FocusMessages(surfaces) + AcceptanceMessages(surfaces)
    ensures forall d :: d != c ==> Received(Bind(seats, surfaces, controllers, c).events, d) == []
  {
    var t := Bind(seats, surfaces, controllers, c);
    var ms := SeatMessages(seats) + FocusMessages(surfaces) + AcceptanceMessages(surfaces);
    ReceivedAllTargeted(t.events, c);
    assert Received(t.events, c) == ms;
    forall d | d != c ensures Received(t.events, d) == [] {
      NoneTargeted(t.events, c, d);
    }
  }

  lemma {:induction false} NoneTargeted(events: seq<Event>, c: ControllerId, d: ControllerId)
    requires d != c
    requires forall i :: 0 <= i < |events| ==> events[i].target == c
    ensures Received(events, d) == []
  {
    if events != [] {
      NoneTargeted(events[1..], c, d);
    }
  }

  /**
   unbind_resource_controller: the controller is unlinked from the list and
   nothing else happens.
   */
  function Unbind(controllers: seq<ControllerId>, c: ControllerId): (t: Transition<seq<ControllerId>>)
    requires c in controllers
    ensures t.events == []
    ensures |t.next| == |controllers| - 1
    ensures multiset(t.next) == multiset(controllers) - multiset{c}
    ensures var k := IndexOf(controllers, c);
      && (forall j :: 0 <= j < k ==> t.next[j] == controllers[j])
      && (forall j :: k <= j < |t.next| ==> t.next[j] == controllers[j + 1])
    ensures NoDuplicates(controllers) ==> NoDuplicates(t.next) && c !in t.next
  {
    var k := IndexOf(controllers, c);
    assert NoDuplicates(controllers) ==> NoDuplicates(DropAt(controllers, k)) && c !in DropAt(controllers, k) by {
      if NoDuplicates(controllers) {
        DropAtDistinct(controllers, k);
      }
    }
    Transition(DropAt(controllers, k), [])
  }
}
