/**
 What a controller client can know of the input context: the picture it
 rebuilds from the events it receives. The replay sent on bind gives a new
 client the current picture, and every later event keeps a bound client's
 picture current, with one exception: surface destruction is never
 announced.
 */
module ClientView {
  import opened Protocol
  import S = SeatRegistry
  import A = AcceptanceTable
  import F = FocusArbiter
  import C = ControllerBroadcast
  import AcceptedSeats
  import opened Engine

  /** Seat capabilities by name, focus by surface id, accepted seats by surface id. */
  datatype View = View(seats: map<string, DeviceMask>, focus: map<uint32, DeviceMask>,
                       accepted: map<uint32, seq<string>>)

  const Empty := View(map[], map[], map[])

  function FocusOf(v: View, id: uint32): DeviceMask {
    if id in v.focus then v.focus[id] else 0
  }

  function AcceptedOf(v: View, id: uint32): seq<string> {
    if id in v.accepted then v.accepted[id] else []
  }

  /**
   How a client reads one event: seat events set or drop a seat's
   capabilities, input_focus sets (ILM_TRUE) or clears the given classes,
   input_acceptance adds (ILM_TRUE) or removes the seat.
   */
  function Observe(v: View, m: Message): View {
    match m
    case SeatCreated(n, caps) => v.(seats := v.seats[n := caps])
    case SeatCapabilities(n, caps) => v.(seats := v.seats[n := caps])
    case SeatDestroyed(n) => v.(seats := v.seats - {n})
    case InputFocus(id, device, enabled) =>
      v.(focus := v.focus[id := Switch(FocusOf(v, id), device, enabled)])
    case InputAcceptance(id, seat, accepted) =>
      v.(accepted := v.accepted[id := A.Apply(AcceptedOf(v, id), seat, accepted).names])
  }

  function ObserveAll(v: View, ms: seq<Message>): View
    decreases |ms|
  {
    if ms == [] then v else ObserveAll(Observe(v, ms[0]), ms[1..])
  }

  lemma {:induction false} ObserveAllAppend(v: View, a: seq<Message>, b: seq<Message>)
    decreases |a|
    ensures ObserveAll(v, a + b) == ObserveAll(ObserveAll(v, a), b)
  {
    if a == [] {
      assert a + b == b;
    } else {
      assert (a + b)[0] == a[0] && (a + b)[1..] == a[1..] + b;
      ObserveAllAppend(Observe(v, a[0]), a[1..], b);
    }
  }

  lemma ObserveCons(v: View, m: Message, rest: seq<Message>)
    ensures ObserveAll(v, [m] + rest) == ObserveAll(Observe(v, m), rest)
  {
    assert ([m] + rest)[0] == m && ([m] + rest)[1..] == rest;
  }

  function SeatNames(seats: seq<S.Seat>): (names: seq<string>)
    ensures |names| == |seats|
    ensures forall i :: 0 <= i < |seats| ==> names[i] == seats[i].name
  {
    seq(|seats|, i requires 0 <= i < |seats| => seats[i].name)
  }

  /** The client knows exactly the live seats, each with its current capabilities. */
  ghost predicate SeatsAgree(v: View, seats: seq<S.Seat>) {
    && (forall n :: n in v.seats <==> n in SeatNames(seats))
    && (forall i :: 0 <= i < |seats| ==>
          seats[i].name in v.seats && v.seats[seats[i].name] == S.Capabilities(seats[i].devices))
  }

  /**
   The client knows each tracked surface's focus and accepted seats, and
   knows of no focus or accepted seat on any other surface id.
   */
  ghost predicate SurfacesAgree(v: View, surfaces: seq<A.Surface>) {
    && (forall j :: 0 <= j < |surfaces| ==>
          FocusOf(v, surfaces[j].id) == surfaces[j].focus && AcceptedOf(v, surfaces[j].id) == surfaces[j].accepted)
    && (forall id: uint32 :: !A.Tracked(surfaces, id) ==> FocusOf(v, id) == 0 && AcceptedOf(v, id) == [])
  }

  ghost predicate Agrees(v: View, st: State) {
    SeatsAgree(v, st.seats) && SurfacesAgree(v, st.surfaces)
  }

  /** A surface id is tracked by a list exactly when it heads it or is tracked by the rest. */
  lemma TrackedCons(surfaces: seq<A.Surface>)
    requires surfaces != []
    ensures forall id :: A.Tracked(surfaces, id) <==> id == surfaces[0].id || A.Tracked(surfaces[1..], id)
  {
    var rest := surfaces[1..];
    forall id | A.Tracked(rest, id) ensures A.Tracked(surfaces, id) {
      var j :| 0 <= j < |rest| && rest[j].id == id;
      assert surfaces[j + 1].id == id;
    }
    forall id | A.Tracked(surfaces, id) && id != surfaces[0].id ensures A.Tracked(rest, id) {
      var j :| 0 <= j < |surfaces| && surfaces[j].id == id;
      assert rest[j - 1].id == id;
    }
  }

  // ---------------------------------------------------------------------------
  // The bind replay

  /** The tail of a list of distinct seat names is distinct and lacks the head. */
  lemma SeatNamesTail(seats: seq<S.Seat>)
    requires seats != [] && NoDuplicates(SeatNames(seats))
    ensures NoDuplicates(SeatNames(seats[1..])) && seats[0].name !in SeatNames(seats[1..])
    ensures forall n :: n in SeatNames(seats) <==> n == seats[0].name || n in SeatNames(seats[1..])
  {
    var rest := seats[1..];
    forall i, j | 0 <= i < j < |rest| ensures rest[i].name != rest[j].name {
      assert rest[i] == seats[i + 1] && rest[j] == seats[j + 1];
      assert SeatNames(seats)[i + 1] != SeatNames(seats)[j + 1];
    }
    forall j | 0 <= j < |rest| ensures rest[j].name != seats[0].name {
      assert rest[j] == seats[j + 1];
      assert SeatNames(seats)[j + 1] != SeatNames(seats)[0];
    }
    assert SeatNames(seats) == [seats[0].name] + SeatNames(rest);
  }

  lemma {:induction false} SeatReplay(v: View, seats: seq<S.Seat>)
    requires NoDuplicates(SeatNames(seats))
    decreases |seats|
    ensures var w := ObserveAll(v, C.SeatMessages(seats));
      && w.focus == v.focus && w.accepted == v.accepted
      && (forall n :: n in w.seats <==> n in v.seats || n in SeatNames(seats))
      && (forall n :: n in v.seats && n !in SeatNames(seats) ==> w.seats[n] == v.seats[n])
      && (forall i :: 0 <= i < |seats| ==>
            seats[i].name in w.seats && w.seats[seats[i].name] == S.Capabilities(seats[i].devices))
  {
    if seats != [] {
      var n0 := seats[0].name;
      var c0 := S.Capabilities(seats[0].devices);
      var rest := seats[1..];
      var v' := v.(seats := v.seats[n0 := c0]);
      assert ObserveAll(v, C.SeatMessages(seats)) == ObserveAll(v', C.SeatMessages(rest)) by {
        var m := SeatCreated(n0, c0);
        assert C.SeatMessages(seats) == [m] + C.SeatMessages(rest);
        ObserveCons(v, m, C.SeatMessages(rest));
      }
      SeatNamesTail(seats);
      SeatReplay(v', rest);
      var w := ObserveAll(v', C.SeatMessages(rest));
      forall i | 0 <= i < |seats|
        ensures seats[i].name in w.seats && w.seats[seats[i].name] == S.Capabilities(seats[i].devices)
      {
        if i > 0 {
          assert seats[i] == rest[i - 1];
        }
      }
    }
  }

  lemma {:induction false} FocusReplay(v: View, surfaces: seq<A.Surface>)
    requires A.IdsDistinct(surfaces)
    requires forall j :: 0 <= j < |surfaces| ==> FocusOf(v, surfaces[j].id) == 0
    decreases |surfaces|
    ensures var w := ObserveAll(v, C.FocusMessages(surfaces));
      && w.seats == v.seats && w.accepted == v.accepted
      && (forall j :: 0 <= j < |surfaces| ==> FocusOf(w, surfaces[j].id) == surfaces[j].focus)
      && (forall id :: !A.Tracked(surfaces, id) ==> FocusOf(w, id) == FocusOf(v, id))
  {
    if surfaces != [] {
      var s := surfaces[0];
      var m := InputFocus(s.id, s.focus, IlmTrue);
      var rest := surfaces[1..];
      assert C.FocusMessages(surfaces) == [m] + C.FocusMessages(rest);
      ObserveCons(v, m, C.FocusMessages(rest));
      var v' := Observe(v, m);
      assert FocusOf(v', s.id) == s.focus by {
        assert FocusOf(v, s.id) == 0;
        assert (0 as DeviceMask) | s.focus == s.focus;
      }
      forall j | 0 <= j < |rest| ensures rest[j] == surfaces[j + 1] && rest[j].id != s.id {
      }
      SeatsUntouched(v, m);
      FocusReplay(v', rest);
      TrackedCons(surfaces);
    }
  }

  /** A focus event changes the focus of its own surface id only. */
  lemma SeatsUntouched(v: View, m: Message)
    requires m.InputFocus?
    ensures Observe(v, m).seats == v.seats && Observe(v, m).accepted == v.accepted
    ensures forall id :: id != m.surface ==> FocusOf(Observe(v, m), id) == FocusOf(v, id)
  {
  }

  /** Accepting a seat the client does not yet list appends it. */
  lemma ObserveAccept(v: View, id: uint32, seat: string)
    requires seat !in AcceptedOf(v, id)
    ensures Observe(v, InputAcceptance(id, seat, IlmTrue)) == v.(accepted := v.accepted[id := AcceptedOf(v, id) + [seat]])
  {
    var p := AcceptedOf(v, id);
    var u := AcceptedSeats.Add(p, seat);
    assert u.names == u.names[..|p|] + [u.names[|p|]];
  }

  lemma HeadNotInPrefix(p: seq<string>, names: seq<string>)
    requires names != [] && NoDuplicates(p + names)
    ensures names[0] !in p
  {
    var q := p + names;
    forall j | 0 <= j < |p| ensures p[j] != names[0] {
      assert q[j] == p[j] && q[|p|] == names[0];
    }
  }

  lemma NameMessagesCons(v: View, id: uint32, names: seq<string>)
    requires names != []
    ensures ObserveAll(v, C.NameMessages(id, names))
         == ObserveAll(Observe(v, InputAcceptance(id, names[0], IlmTrue)), C.NameMessages(id, names[1..]))
  {
    var m := InputAcceptance(id, names[0], IlmTrue);
    assert C.NameMessages(id, names) == [m] + C.NameMessages(id, names[1..]);
    ObserveCons(v, m, C.NameMessages(id, names[1..]));
  }

  /** The first acceptance of a replay series appends its name to the client's list. */
  lemma NameStep(v: View, id: uint32, names: seq<string>)
    requires names != [] && NoDuplicates(AcceptedOf(v, id) + names)
    ensures var v' := v.(accepted := v.accepted[id := AcceptedOf(v, id) + [names[0]]]);
      && ObserveAll(v, C.NameMessages(id, names)) == ObserveAll(v', C.NameMessages(id, names[1..]))
      && AcceptedOf(v', id) + names[1..] == AcceptedOf(v, id) + names
  {
    var p := AcceptedOf(v, id);
    NameMessagesCons(v, id, names);
    HeadNotInPrefix(p, names);
    ObserveAccept(v, id, names[0]);
    assert p + [names[0]] + names[1..] == p + names;
  }

  lemma {:induction false} NameReplay(v: View, id: uint32, names: seq<string>)
    requires NoDuplicates(AcceptedOf(v, id) + names)
    decreases |names|
    ensures var w := ObserveAll(v, C.NameMessages(id, names));
      && w.seats == v.seats && w.focus == v.focus
      && AcceptedOf(w, id) == AcceptedOf(v, id) + names
      && (forall x :: x != id ==> AcceptedOf(w, x) == AcceptedOf(v, x))
  {
    if names == [] {
      assert AcceptedOf(v, id) + names == AcceptedOf(v, id);
    } else {
      var v' := v.(accepted := v.accepted[id := AcceptedOf(v, id) + [names[0]]]);
      NameStep(v, id, names);
      NameReplay(v', id, names[1..]);
      NameCombine(v, v', ObserveAll(v', C.NameMessages(id, names[1..])), id, names);
    }
  }

  lemma NameCombine(v: View, v': View, w: View, id: uint32, names: seq<string>)
    requires names != []
    requires v' == v.(accepted := v.accepted[id := AcceptedOf(v, id) + [names[0]]])
    requires AcceptedOf(v', id) + names[1..] == AcceptedOf(v, id) + names
    requires w.seats == v'.seats && w.focus == v'.focus
    requires AcceptedOf(w, id) == AcceptedOf(v', id) + names[1..]
    requires forall x :: x != id ==> AcceptedOf(w, x) == AcceptedOf(v', x)
    ensures w.seats == v.seats && w.focus == v.focus
    ensures AcceptedOf(w, id) == AcceptedOf(v, id) + names
    ensures forall x :: x != id ==> AcceptedOf(w, x) == AcceptedOf(v, x)
  {
  }

  lemma {:induction false} AcceptanceReplay(v: View, surfaces: seq<A.Surface>)
    requires A.IdsDistinct(surfaces) && A.AcceptedDistinct(surfaces)
    requires forall j :: 0 <= j < |surfaces| ==> AcceptedOf(v, surfaces[j].id) == []
    decreases |surfaces|
    ensures var w := ObserveAll(v, C.AcceptanceMessages(surfaces));
      && w.seats == v.seats && w.focus == v.focus
      && (forall j :: 0 <= j < |surfaces| ==> AcceptedOf(w, surfaces[j].id) == surfaces[j].accepted)
      && (forall id :: !A.Tracked(surfaces, id) ==> AcceptedOf(w, id) == AcceptedOf(v, id))
  {
    if surfaces != [] {
      var v' := ObserveAll(v, C.NameMessages(surfaces[0].id, surfaces[0].accepted));
      AcceptanceStep(v, surfaces);
      AcceptanceReplay(v', surfaces[1..]);
      AcceptanceCombine(v, v', ObserveAll(v', C.AcceptanceMessages(surfaces[1..])), surfaces);
    }
  }

  /** The first surface's names come first in the replay and fill in that surface's list alone. */
  lemma AcceptanceStep(v: View, surfaces: seq<A.Surface>)
    requires surfaces != [] && A.IdsDistinct(surfaces) && A.AcceptedDistinct(surfaces)
    requires forall j :: 0 <= j < |surfaces| ==> AcceptedOf(v, surfaces[j].id) == []
    ensures var s := surfaces[0];
      var v' := ObserveAll(v, C.NameMessages(s.id, s.accepted));
      && ObserveAll(v, C.AcceptanceMessages(surfaces)) == ObserveAll(v', C.AcceptanceMessages(surfaces[1..]))
      && v'.seats == v.seats && v'.focus == v.focus
      && AcceptedOf(v', s.id) == s.accepted
      && (forall x :: x != s.id ==> AcceptedOf(v', x) == AcceptedOf(v, x))
      && A.IdsDistinct(surfaces[1..]) && A.AcceptedDistinct(surfaces[1..])
      && (forall j :: 0 <= j < |surfaces| - 1 ==> AcceptedOf(v', surfaces[1..][j].id) == [])
  {
    var s := surfaces[0];
    var rest := surfaces[1..];
    var head := C.NameMessages(s.id, s.accepted);
    assert C.AcceptanceMessages(surfaces) == head + C.AcceptanceMessages(rest);
    ObserveAllAppend(v, head, C.AcceptanceMessages(rest));
    assert [] + s.accepted == s.accepted;
    assert NoDuplicates(s.accepted);
    NameReplay(v, s.id, s.accepted);
    forall j | 0 <= j < |rest| ensures rest[j] == surfaces[j + 1] && rest[j].id != s.id {
    }
  }

  /** The first surface's list together with the rest of the replay gives every tracked list. */
  lemma AcceptanceCombine(v: View, v': View, w: View, surfaces: seq<A.Surface>)
    requires surfaces != []
    requires v'.seats == v.seats && v'.focus == v.focus
    requires AcceptedOf(v', surfaces[0].id) == surfaces[0].accepted
    requires forall x :: x != surfaces[0].id ==> AcceptedOf(v', x) == AcceptedOf(v, x)
    requires forall j :: 1 <= j < |surfaces| ==> surfaces[j].id != surfaces[0].id
    requires w.seats == v'.seats && w.focus == v'.focus
    requires forall j :: 0 <= j < |surfaces| - 1 ==> AcceptedOf(w, surfaces[1..][j].id) == surfaces[1..][j].accepted
    requires forall id :: !A.Tracked(surfaces[1..], id) ==> AcceptedOf(w, id) == AcceptedOf(v', id)
    ensures w.seats == v.seats && w.focus == v.focus
    ensures forall j :: 0 <= j < |surfaces| ==> AcceptedOf(w, surfaces[j].id) == surfaces[j].accepted
    ensures forall id :: !A.Tracked(surfaces, id) ==> AcceptedOf(w, id) == AcceptedOf(v, id)
  {
    TrackedCons(surfaces);
    assert !A.Tracked(surfaces[1..], surfaces[0].id);
    forall j | 1 <= j < |surfaces| ensures AcceptedOf(w, surfaces[j].id) == surfaces[j].accepted {
      assert surfaces[j] == surfaces[1..][j - 1];
    }
  }

  /**
   Late binding: the replay a newly bound controller receives rebuilds, from
   nothing, exactly the current seats, focus and accepted seats.
   */
  lemma ReplayAgrees(st: State, c: ControllerId)
    requires Valid(st) && NoDuplicates(SeatNames(st.seats)) && c !in st.controllers
    ensures Agrees(ObserveAll(Empty, Received(C.Bind(st.seats, st.surfaces, st.controllers, c).events, c)), st)
  {
    C.BindReplay(st.seats, st.surfaces, st.controllers, c);
    ReplayFromEmpty(st.seats, st.surfaces);
  }

  /** Observing the three replay series from an empty picture yields exactly the given lists. */
  lemma ReplayFromEmpty(seats: seq<S.Seat>, surfaces: seq<A.Surface>)
    requires NoDuplicates(SeatNames(seats)) && A.IdsDistinct(surfaces) && A.AcceptedDistinct(surfaces)
    ensures var v := ObserveAll(Empty, C.SeatMessages(seats) + C.FocusMessages(surfaces) + C.AcceptanceMessages(surfaces));
      SeatsAgree(v, seats) && SurfacesAgree(v, surfaces)
  {
    var seatMs := C.SeatMessages(seats);
    var focusMs := C.FocusMessages(surfaces);
    var accMs := C.AcceptanceMessages(surfaces);
    ObserveAllAppend(Empty, seatMs + focusMs, accMs);
    ObserveAllAppend(Empty, seatMs, focusMs);
    SeatReplay(Empty, seats);
    var v1 := ObserveAll(Empty, seatMs);
    FocusReplay(v1, surfaces);
    var v2 := ObserveAll(v1, focusMs);
    AcceptanceReplay(v2, surfaces);
    var v3 := ObserveAll(v2, accMs);
    assert v3.seats == v1.seats && v3.focus == v2.focus && v2.accepted == map[] && v1.focus == map[];
    assert SeatsAgree(v3, seats);
    assert forall x :: !A.Tracked(surfaces, x) ==> FocusOf(v3, x) == 0 && AcceptedOf(v3, x) == [] by {
      forall x | !A.Tracked(surfaces, x) ensures FocusOf(v3, x) == 0 && AcceptedOf(v3, x) == [] {
        assert FocusOf(v3, x) == FocusOf(v2, x) == FocusOf(v1, x);
        assert AcceptedOf(v3, x) == AcceptedOf(v2, x);
      }
    }
  }

  // ---------------------------------------------------------------------------
  // Live events

  /** Applying the notice of one surface context, if it has one. */
  function ObserveNotice(v: View, o: Option<Message>): View {
    match o
    case None => v
    case Some(m) => Observe(v, m)
  }

  /** One surface's notice moves the client's focus for that surface exactly as the request moves the context's. */
  lemma NoticeEffect(v: View, s: A.Surface, id: uint32, device: DeviceMask, enabled: int32, mask: DeviceMask)
    ensures var v' := ObserveNotice(v, F.Notice(s, id, device, enabled, mask));
      && v'.seats == v.seats && v'.accepted == v.accepted
      && (forall x :: x != s.id ==> FocusOf(v', x) == FocusOf(v, x))
      && FocusOf(v', s.id) == F.Refocus(s.(focus := FocusOf(v, s.id)), id, device, enabled, mask).focus
  {
    NoticeFrame(v, s, id, device, enabled, mask);
    NoticeFocus(v, s, id, device, enabled, mask);
  }

  /** A notice touches only the focus of its own surface. */
  lemma NoticeFrame(v: View, s: A.Surface, id: uint32, device: DeviceMask, enabled: int32, mask: DeviceMask)
    ensures var v' := ObserveNotice(v, F.Notice(s, id, device, enabled, mask));
      && v'.seats == v.seats && v'.accepted == v.accepted
      && (forall x :: x != s.id ==> FocusOf(v', x) == FocusOf(v, x))
  {
  }

  /** A notice moves the client's focus for its surface as the request moves the context's. */
  lemma NoticeFocus(v: View, s: A.Surface, id: uint32, device: DeviceMask, enabled: int32, mask: DeviceMask)
    ensures FocusOf(ObserveNotice(v, F.Notice(s, id, device, enabled, mask)), s.id)
         == F.Refocus(s.(focus := FocusOf(v, s.id)), id, device, enabled, mask).focus
  {
  }

  lemma NoticesCons(v: View, surfaces: seq<A.Surface>, id: uint32, device: DeviceMask, enabled: int32, mask: DeviceMask)
    requires surfaces != []
    ensures ObserveAll(v, F.Notices(surfaces, id, device, enabled, mask))
         == ObserveAll(ObserveNotice(v, F.Notice(surfaces[0], id, device, enabled, mask)),
                       F.Notices(surfaces[1..], id, device, enabled, mask))
  {
    var restMs := F.Notices(surfaces[1..], id, device, enabled, mask);
    match F.Notice(surfaces[0], id, device, enabled, mask)
    case None =>
    case Some(m) => ObserveCons(v, m, restMs);
  }

  /** The picture a client rebuilds from a focus request's notices. */
  lemma {:induction false} SweepView(v: View, surfaces: seq<A.Surface>,
                                     id: uint32, device: DeviceMask, enabled: int32, mask: DeviceMask)
    requires A.IdsDistinct(surfaces)
    decreases |surfaces|
    ensures var w := ObserveAll(v, F.Notices(surfaces, id, device, enabled, mask));
      && w.seats == v.seats && w.accepted == v.accepted
      && (forall j :: 0 <= j < |surfaces| ==>
            FocusOf(w, surfaces[j].id) ==
            F.Refocus(surfaces[j].(focus := FocusOf(v, surfaces[j].id)), id, device, enabled, mask).focus)
      && (forall x :: !A.Tracked(surfaces, x) ==> FocusOf(w, x) == FocusOf(v, x))
  {
    if surfaces != [] {
      var s := surfaces[0];
      var rest := surfaces[1..];
      var v' := ObserveNotice(v, F.Notice(s, id, device, enabled, mask));
      NoticesCons(v, surfaces, id, device, enabled, mask);
      NoticeEffect(v, s, id, device, enabled, mask);
      assert A.IdsDistinct(rest);
      SweepView(v', rest, id, device, enabled, mask);
      SweepStep(v, v', ObserveAll(v', F.Notices(rest, id, device, enabled, mask)), surfaces, id, device, enabled, mask);
    }
  }

  /** Combines the first surface's notice with the picture the rest of the sweep leaves. */
  lemma SweepStep(v: View, v': View, w: View, surfaces: seq<A.Surface>,
                  id: uint32, device: DeviceMask, enabled: int32, mask: DeviceMask)
    requires surfaces != [] && A.IdsDistinct(surfaces)
    requires v'.seats == v.seats && v'.accepted == v.accepted
    requires forall x :: x != surfaces[0].id ==> FocusOf(v', x) == FocusOf(v, x)
    requires FocusOf(v', surfaces[0].id) ==
             F.Refocus(surfaces[0].(focus := FocusOf(v, surfaces[0].id)), id, device, enabled, mask).focus
    requires w.seats == v'.seats && w.accepted == v'.accepted
    requires forall j :: 0 <= j < |surfaces| - 1 ==>
      FocusOf(w, surfaces[1..][j].id) ==
      F.Refocus(surfaces[1..][j].(focus := FocusOf(v', surfaces[1..][j].id)), id, device, enabled, mask).focus
    requires forall x :: !A.Tracked(surfaces[1..], x) ==> FocusOf(w, x) == FocusOf(v', x)
    ensures w.seats == v.seats && w.accepted == v.accepted
    ensures forall j :: 0 <= j < |surfaces| ==>
      FocusOf(w, surfaces[j].id) ==
      F.Refocus(surfaces[j].(focus := FocusOf(v, surfaces[j].id)), id, device, enabled, mask).focus
    ensures forall x :: !A.Tracked(surfaces, x) ==> FocusOf(w, x) == FocusOf(v, x)
  {
    var rest := surfaces[1..];
    TrackedCons(surfaces);
    assert !A.Tracked(rest, surfaces[0].id);
    forall j | 1 <= j < |surfaces|
      ensures FocusOf(w, surfaces[j].id) ==
              F.Refocus(surfaces[j].(focus := FocusOf(v, surfaces[j].id)), id, device, enabled, mask).focus
    {
      assert rest[j - 1] == surfaces[j] && surfaces[j].id != surfaces[0].id;
    }
  }


  /** A broadcast reaches a bound controller as exactly one observation. */
  lemma ObserveBroadcast(v: View, controllers: seq<ControllerId>, m: Message, c: ControllerId)
    requires NoDuplicates(controllers) && c in controllers
    ensures ObserveAll(v, Received(Broadcast(controllers, m), c)) == Observe(v, m)
  {
    ReceivedBroadcast(controllers, m, c);
    ObserveCons(v, m, []);
    assert [m] + [] == [m];
  }

  /** The surface part of a picture depends only on its focus and acceptance maps. */
  lemma SurfacesAgreeFrame(v: View, w: View, surfaces: seq<A.Surface>)
    requires SurfacesAgree(v, surfaces) && w.focus == v.focus && w.accepted == v.accepted
    ensures SurfacesAgree(w, surfaces)
  {
    assert forall x :: FocusOf(w, x) == FocusOf(v, x) && AcceptedOf(w, x) == AcceptedOf(v, x);
  }

  /** The seat part of a picture depends only on its seat map. */
  lemma SeatsAgreeFrame(v: View, w: View, seats: seq<S.Seat>)
    requires SeatsAgree(v, seats) && w.seats == v.seats
    ensures SeatsAgree(w, seats)
  {
  }

  lemma SeatsAppend(v: View, seats: seq<S.Seat>, seats': seq<S.Seat>, n: string, d: S.Devices)
    requires SeatsAgree(v, seats) && n !in SeatNames(seats)
    requires |seats'| == |seats| + 1 && seats'[..|seats|] == seats
    requires seats'[|seats|].name == n && seats'[|seats|].devices == d
    ensures SeatsAgree(v.(seats := v.seats[n := S.Capabilities(d)]), seats')
  {
    var w := v.(seats := v.seats[n := S.Capabilities(d)]);
    assert SeatNames(seats') == SeatNames(seats) + [n] by {
      forall i | 0 <= i < |seats| ensures seats'[i] == seats[i] {
        assert seats'[..|seats|][i] == seats'[i];
      }
    }
    forall i | 0 <= i < |seats'|
      ensures seats'[i].name in w.seats && w.seats[seats'[i].name] == S.Capabilities(seats'[i].devices)
    {
      if i < |seats| {
        assert seats'[..|seats|][i] == seats'[i];
        assert SeatNames(seats)[i] == seats[i].name;
      }
    }
  }

  lemma SeatsReplace(v: View, seats: seq<S.Seat>, seats': seq<S.Seat>, k: nat, d: S.Devices)
    requires SeatsAgree(v, seats) && NoDuplicates(SeatNames(seats)) && k < |seats|
    requires |seats'| == |seats| && seats'[k].name == seats[k].name && seats'[k].devices == d
    requires forall j :: 0 <= j < |seats| && j != k ==> seats'[j] == seats[j]
    ensures SeatsAgree(v.(seats := v.seats[seats[k].name := S.Capabilities(d)]), seats')
  {
    var w := v.(seats := v.seats[seats[k].name := S.Capabilities(d)]);
    assert SeatNames(seats') == SeatNames(seats);
    forall i | 0 <= i < |seats'|
      ensures seats'[i].name in w.seats && w.seats[seats'[i].name] == S.Capabilities(seats'[i].devices)
    {
      if i != k {
        assert SeatNames(seats)[i] != SeatNames(seats)[k];
      }
    }
  }

  lemma SeatsDrop(v: View, seats: seq<S.Seat>, seats': seq<S.Seat>, k: nat)
    requires SeatsAgree(v, seats) && NoDuplicates(SeatNames(seats)) && k < |seats|
    requires |seats'| == |seats| - 1
    requires forall j :: 0 <= j < k ==> seats'[j] == seats[j]
    requires forall j :: k <= j < |seats'| ==> seats'[j] == seats[j + 1]
    ensures SeatsAgree(v.(seats := v.seats - {seats[k].name}), seats')
  {
    var name := seats[k].name;
    var w := v.(seats := v.seats - {name});
    forall i | 0 <= i < |seats'|
      ensures seats'[i] == seats[if i < k then i else i + 1] && seats'[i].name != name
    {
      var i' := if i < k then i else i + 1;
      assert SeatNames(seats)[i'] != SeatNames(seats)[k];
    }
    forall x ensures x in SeatNames(seats') <==> x in SeatNames(seats) && x != name {
      if x in SeatNames(seats) && x != name {
        var i :| 0 <= i < |seats| && SeatNames(seats)[i] == x;
        assert SeatNames(seats')[if i < k then i else i - 1] == x;
      }
    }
  }

  lemma SurfacesPrepend(v: View, surfaces: seq<A.Surface>, surfaces': seq<A.Surface>, id: uint32)
    requires SurfacesAgree(v, surfaces) && !A.Tracked(surfaces, id)
    requires surfaces' == [A.NewSurface(id)] + surfaces
    ensures SurfacesAgree(v.(accepted := v.accepted[id := [DefaultSeat]]), surfaces')
  {
    TrackedCons(surfaces');
    assert surfaces'[1..] == surfaces;
    forall j | 1 <= j < |surfaces'| ensures surfaces'[j] == surfaces[j - 1] {
    }
  }

  lemma SurfacesSetAccepted(v: View, surfaces: seq<A.Surface>, surfaces': seq<A.Surface>, k: nat, names: seq<string>)
    requires SurfacesAgree(v, surfaces) && A.IdsDistinct(surfaces) && k < |surfaces|
    requires surfaces' == surfaces[k := surfaces[k].(accepted := names)]
    ensures SurfacesAgree(v.(accepted := v.accepted[surfaces[k].id := names]), surfaces')
  {
    forall x | A.Tracked(surfaces, x) ensures A.Tracked(surfaces', x) {
      var j :| 0 <= j < |surfaces| && surfaces[j].id == x;
      assert surfaces'[j].id == x;
    }
  }

  lemma SurfacesRefocus(v: View, w: View, surfaces: seq<A.Surface>, surfaces': seq<A.Surface>)
    requires SurfacesAgree(v, surfaces) && w.accepted == v.accepted
    requires |surfaces'| == |surfaces|
    requires forall j :: 0 <= j < |surfaces| ==>
      surfaces'[j].id == surfaces[j].id && surfaces'[j].accepted == surfaces[j].accepted
      && FocusOf(w, surfaces[j].id) == surfaces'[j].focus
    requires forall x :: !A.Tracked(surfaces, x) ==> FocusOf(w, x) == FocusOf(v, x)
    ensures SurfacesAgree(w, surfaces')
  {
    forall x | A.Tracked(surfaces, x) ensures A.Tracked(surfaces', x) {
      var j :| 0 <= j < |surfaces| && surfaces[j].id == x;
      assert surfaces'[j].id == x;
    }
  }

  lemma SeatCreateKeepsAgreement(st: State, v: View, c: ControllerId, h: S.SeatHandle, n: string, d: S.Devices)
    requires Valid(st) && c in st.controllers && Agrees(v, st)
    requires !S.Tracked(st.seats, h) && n !in SeatNames(st.seats)
    ensures var t := Step(st, SeatCreate(h, n, d));
      Agrees(ObserveAll(v, Received(t.events, c)), t.next)
  {
    var t := Step(st, SeatCreate(h, n, d));
    var m := SeatCreated(n, S.Capabilities(d));
    ObserveBroadcast(v, st.controllers, m, c);
    SeatsAppend(v, st.seats, t.next.seats, n, d);
    SurfacesAgreeFrame(v, v.(seats := v.seats[n := S.Capabilities(d)]), st.surfaces);
  }

  lemma SeatUpdateKeepsAgreement(st: State, v: View, c: ControllerId, h: S.SeatHandle, d: S.Devices)
    requires Valid(st) && NoDuplicates(SeatNames(st.seats)) && c in st.controllers && Agrees(v, st)
    requires S.Tracked(st.seats, h)
    ensures var t := Step(st, SeatUpdatedCaps(h, d));
      Agrees(ObserveAll(v, Received(t.events, c)), t.next)
  {
    var t := Step(st, SeatUpdatedCaps(h, d));
    var k := S.Find(st.seats, h);
    var m := SeatCapabilities(st.seats[k].name, S.Capabilities(d));
    ObserveBroadcast(v, st.controllers, m, c);
    SeatsReplace(v, st.seats, t.next.seats, k, d);
    SurfacesAgreeFrame(v, v.(seats := v.seats[st.seats[k].name := S.Capabilities(d)]), st.surfaces);
  }

  lemma SeatDestroyKeepsAgreement(st: State, v: View, c: ControllerId, h: S.SeatHandle)
    requires Valid(st) && NoDuplicates(SeatNames(st.seats)) && c in st.controllers && Agrees(v, st)
    requires S.Tracked(st.seats, h)
    ensures var t := Step(st, SeatDestroy(h));
      Agrees(ObserveAll(v, Received(t.events, c)), t.next)
  {
    var t := Step(st, SeatDestroy(h));
    var k := S.Find(st.seats, h);
    var m := SeatDestroyed(st.seats[k].name);
    ObserveBroadcast(v, st.controllers, m, c);
    SeatsDrop(v, st.seats, t.next.seats, k);
    SurfacesAgreeFrame(v, v.(seats := v.seats - {st.seats[k].name}), st.surfaces);
  }

  lemma SurfaceCreateKeepsAgreement(st: State, v: View, c: ControllerId, id: uint32)
    requires Valid(st) && c in st.controllers && Agrees(v, st)
    ensures var t := StepCorrected(st, SurfaceCreate(id));
      Agrees(ObserveAll(v, Received(t.events, c)), t.next)
  {
    if !A.Tracked(st.surfaces, id) {
      var t := StepCorrected(st, SurfaceCreate(id));
      assert t.next == st.(surfaces := [A.NewSurface(id)] + st.surfaces);
      assert t.events == Broadcast(st.controllers, InputAcceptance(id, DefaultSeat, IlmTrue));
      FreshSurfaceSeen(st, v, c, id);
    }
  }

  /** The default-seat echo of a new surface gives the client exactly the new context. */
  lemma FreshSurfaceSeen(st: State, v: View, c: ControllerId, id: uint32)
    requires Valid(st) && c in st.controllers && Agrees(v, st) && !A.Tracked(st.surfaces, id)
    ensures Agrees(ObserveAll(v, Received(Broadcast(st.controllers, InputAcceptance(id, DefaultSeat, IlmTrue)), c)),
                   st.(surfaces := [A.NewSurface(id)] + st.surfaces))
  {
    var m := InputAcceptance(id, DefaultSeat, IlmTrue);
    var w := v.(accepted := v.accepted[id := [DefaultSeat]]);
    ObserveBroadcast(v, st.controllers, m, c);
    assert AcceptedOf(v, id) == [];
    assert Observe(v, m) == w;
    SurfacesPrepend(v, st.surfaces, [A.NewSurface(id)] + st.surfaces, id);
    SeatsAgreeFrame(v, w, st.seats);
  }

  lemma SetFocusKeepsAgreement(st: State, v: View, c: ControllerId, id: uint32, device: DeviceMask, enabled: int32)
    requires Valid(st) && c in st.controllers && Agrees(v, st)
    ensures var t := Step(st, SetFocus(id, device, enabled));
      Agrees(ObserveAll(v, Received(t.events, c)), t.next)
  {
    var t := Step(st, SetFocus(id, device, enabled));
    var mask := F.SingleSurfaceDevices & device;
    F.FocusTrace(st.surfaces, st.controllers, id, device, enabled, c);
    SweepView(v, st.surfaces, id, device, enabled, mask);
    var w := ObserveAll(v, Received(t.events, c));
    assert t.next.surfaces == F.Sweep(st.surfaces, st.controllers, id, device, enabled, mask).next;
    forall j | 0 <= j < |st.surfaces|
      ensures FocusOf(w, st.surfaces[j].id) == t.next.surfaces[j].focus
    {
      assert st.surfaces[j].(focus := FocusOf(v, st.surfaces[j].id)) == st.surfaces[j];
    }
    SurfacesRefocus(v, w, st.surfaces, t.next.surfaces);
    SeatsAgreeFrame(v, w, st.seats);
  }

  /** What an acceptance request on a tracked surface does, as one update of its list. */
  lemma AcceptanceOutcome(surfaces: seq<A.Surface>, controllers: seq<ControllerId>,
                          id: uint32, seat: string, accepted: int32)
    requires A.Tracked(surfaces, id)
    ensures var k := A.Find(surfaces, id);
      var u := A.Apply(surfaces[k].accepted, seat, accepted);
      var t := A.SetInputAcceptance(surfaces, controllers, id, seat, accepted);
      && t.next == surfaces[k := surfaces[k].(accepted := u.names)]
      && t.events == (if u.ok then Broadcast(controllers, InputAcceptance(id, seat, accepted)) else [])
      && (!u.ok ==> u.names == surfaces[k].accepted)
  {
  }

  lemma SetAcceptanceKeepsAgreement(st: State, v: View, c: ControllerId, id: uint32, seat: string, accepted: int32)
    requires Valid(st) && c in st.controllers && Agrees(v, st)
    ensures var t := Step(st, SetAcceptance(id, seat, accepted));
      Agrees(ObserveAll(v, Received(t.events, c)), t.next)
  {
    if A.Tracked(st.surfaces, id) {
      var k := A.Find(st.surfaces, id);
      var u := A.Apply(st.surfaces[k].accepted, seat, accepted);
      AcceptanceOutcome(st.surfaces, st.controllers, id, seat, accepted);
      if u.ok {
        EchoSeen(st, v, c, k, seat, accepted);
      } else {
        assert st.surfaces[k := st.surfaces[k].(accepted := u.names)] == st.surfaces;
      }
    }
  }

  /** The echo of an acceptance change gives the client the changed list. */
  lemma EchoSeen(st: State, v: View, c: ControllerId, k: nat, seat: string, accepted: int32)
    requires Valid(st) && c in st.controllers && Agrees(v, st) && k < |st.surfaces|
    ensures var s := st.surfaces[k];
      var names := A.Apply(s.accepted, seat, accepted).names;
      Agrees(ObserveAll(v, Received(Broadcast(st.controllers, InputAcceptance(s.id, seat, accepted)), c)),
             st.(surfaces := st.surfaces[k := s.(accepted := names)]))
  {
    var s := st.surfaces[k];
    var names := A.Apply(s.accepted, seat, accepted).names;
    var m := InputAcceptance(s.id, seat, accepted);
    var w := v.(accepted := v.accepted[s.id := names]);
    ObserveBroadcast(v, st.controllers, m, c);
    assert AcceptedOf(v, s.id) == s.accepted;
    assert Observe(v, m) == w;
    SurfacesSetAccepted(v, st.surfaces, st.surfaces[k := s.(accepted := names)], k, names);
    SeatsAgreeFrame(v, w, st.seats);
  }

  /**
   A bound controller's picture stays current: whatever trigger comes next,
   other than a surface destruction, the picture it rebuilds from that
   trigger's events agrees with the new state. Seat names are taken to be
   unique, as the compositor names seats.
   */
  lemma StepKeepsAgreement(st: State, tr: Trigger, v: View, c: ControllerId)
    requires Valid(st) && Admissible(st, tr) && NoDuplicates(SeatNames(st.seats))
    requires c in st.controllers && Agrees(v, st)
    requires !tr.SurfaceDestroy?
    requires tr.SeatCreate? ==> tr.name !in SeatNames(st.seats)
    requires tr.ControllerUnbind? ==> tr.controller != c
    ensures var t := StepCorrected(st, tr);
      && c in t.next.controllers
      && Agrees(ObserveAll(v, Received(t.events, c)), t.next)
  {
    var t := StepCorrected(st, tr);
    match tr
    case SeatCreate(h, n, d) => SeatCreateKeepsAgreement(st, v, c, h, n, d);
    case SeatUpdatedCaps(h, d) => SeatUpdateKeepsAgreement(st, v, c, h, d);
    case SeatDestroy(h) => SeatDestroyKeepsAgreement(st, v, c, h);
    case SurfaceCreate(id) => SurfaceCreateKeepsAgreement(st, v, c, id);
    case SetFocus(id, device, enabled) => SetFocusKeepsAgreement(st, v, c, id, device, enabled);
    case SetAcceptance(id, seat, accepted) => SetAcceptanceKeepsAgreement(st, v, c, id, seat, accepted);
    case ControllerBind(d) =>
      C.BindReplay(st.seats, st.surfaces, st.controllers, d);
      assert Received(t.events, c) == [];
    case ControllerUnbind(d) =>
      assert multiset(t.next.controllers) == multiset(st.controllers) - multiset{d};
      assert c in multiset(st.controllers);
  }

  /**
   Surface destruction is the exception: it sends nothing, so a bound
   controller still believes in the surface while a controller bound
   afterwards never hears of it.
   */
  lemma SurfaceDestroyUnseen(st: State, v: View, c: ControllerId, d: ControllerId, id: uint32)
    requires Valid(st) && NoDuplicates(SeatNames(st.seats)) && c in st.controllers && Agrees(v, st)
    requires A.Tracked(st.surfaces, id) && st.surfaces[A.Find(st.surfaces, id)].accepted != []
    requires d !in st.controllers
    ensures var t := Step(st, SurfaceDestroy(id));
      var late := ObserveAll(Empty, Received(C.Bind(t.next.seats, t.next.surfaces, t.next.controllers, d).events, d));
      && t.events == []
      && AcceptedOf(v, id) != []
      && AcceptedOf(late, id) == []
  {
    var t := Step(st, SurfaceDestroy(id));
    StepKeepsValid(st, SurfaceDestroy(id));
    assert SeatNames(t.next.seats) == SeatNames(st.seats);
    ReplayAgrees(t.next, d);
  }
}
