/**
 The input context as a whole: the seat, surface and controller lists, the
 triggers that drive it (compositor signals and controller requests), one
 run-to-completion step per trigger, and the invariant the steps keep.
 */
module Engine {
  import opened Protocol
  import S = SeatRegistry
  import A = AcceptanceTable
  import F = FocusArbiter
  import C = ControllerBroadcast

  datatype State = State(seats: seq<S.Seat>, surfaces: seq<A.Surface>, controllers: seq<ControllerId>)

  /** One trigger delivered by the host event loop. */
  datatype Trigger =
    | SeatCreate(handle: S.SeatHandle, name: string, devices: S.Devices)
    | SeatUpdatedCaps(handle: S.SeatHandle, devices: S.Devices)
    | SeatDestroy(handle: S.SeatHandle)
    | SurfaceCreate(id: uint32)
    | SurfaceDestroy(id: uint32)
    | ControllerBind(controller: ControllerId)
    | ControllerUnbind(controller: ControllerId)
    | SetFocus(surface: uint32, device: DeviceMask, enabled: int32)
    | SetAcceptance(surface: uint32, seat: string, accepted: int32)

  /**
   What the host guarantees about a trigger: seat signals name a seat the
   controller has a context for (creation a new one), a bind comes with a
   new resource, an unbind with a bound one.
   */
  predicate Admissible(st: State, tr: Trigger) {
    match tr
    case SeatCreate(h, _, _) => !S.Tracked(st.seats, h)
    case SeatUpdatedCaps(h, _) => S.Tracked(st.seats, h)
    case SeatDestroy(h) => S.Tracked(st.seats, h)
    case ControllerBind(c) => c !in st.controllers
    case ControllerUnbind(c) => c in st.controllers
    case _ => true
  }

  /** Dispatches a trigger to the handler that owns it; each handler touches only its own list. */
  function Step(st: State, tr: Trigger): (t: Transition<State>)
    requires Admissible(st, tr)
    ensures tr.SeatCreate? || tr.SeatUpdatedCaps? || tr.SeatDestroy? ==>
      t.next.surfaces == st.surfaces && t.next.controllers == st.controllers
    ensures tr.SurfaceCreate? || tr.SurfaceDestroy? || tr.SetFocus? || tr.SetAcceptance? ==>
      t.next.seats == st.seats && t.next.controllers == st.controllers
    ensures tr.ControllerBind? || tr.ControllerUnbind? ==>
      t.next.seats == st.seats && t.next.surfaces == st.surfaces
  {
    match tr
    case SeatCreate(h, name, d) =>
      var r := S.HandleSeatCreate(st.seats, st.controllers, h, name, d);
      Transition(st.(seats := r.next), r.events)
    case SeatUpdatedCaps(h, d) =>
      var r := S.HandleSeatUpdatedCaps(st.seats, st.controllers, h, d);
      Transition(st.(seats := r.next), r.events)
    case SeatDestroy(h) =>
      var r := S.HandleSeatDestroy(st.seats, st.controllers, h);
      Transition(st.(seats := r.next), r.events)
    case SurfaceCreate(id) =>
      var r := A.HandleSurfaceCreate(st.surfaces, st.controllers, id);
      Transition(st.(surfaces := r.next), r.events)
    case SurfaceDestroy(id) =>
      var r := A.HandleSurfaceDestroy(st.surfaces, id);
      Transition(st.(surfaces := r.next), r.events)
    case ControllerBind(c) =>
      var r := C.Bind(st.seats, st.surfaces, st.controllers, c);
      Transition(st.(controllers := r.next), r.events)
    case ControllerUnbind(c) =>
      var r := C.Unbind(st.controllers, c);
      Transition(st.(controllers := r.next), r.events)
    case SetFocus(id, device, enabled) =>
      var r := F.SetInputFocus(st.surfaces, st.controllers, id, device, enabled);
      Transition(st.(surfaces := r.next), r.events)
    case SetAcceptance(id, seat, accepted) =>
      var r := A.SetInputAcceptance(st.surfaces, st.controllers, id, seat, accepted);
      Transition(st.(surfaces := r.next), r.events)
  }

  /** Step with surface creation ignoring a surface that already has a context. */
  function StepCorrected(st: State, tr: Trigger): (t: Transition<State>)
    requires Admissible(st, tr)
    ensures !(tr.SurfaceCreate? && A.Tracked(st.surfaces, tr.id)) ==> t == Step(st, tr)
    ensures tr.SurfaceCreate? && A.Tracked(st.surfaces, tr.id) ==> t == Transition(st, [])
  {
    match tr
    case SurfaceCreate(id) =>
      var r := A.HandleSurfaceCreateOnce(st.surfaces, st.controllers, id);
      Transition(st.(surfaces := r.next), r.events)
    case _ => Step(st, tr)
  }

  /**
   The invariant of the input context: seat contexts, surface ids and
   controllers are each unique, no surface accepts a seat twice, and at most
   one surface holds pointer focus and at most one holds touch focus.
   */
  ghost predicate Valid(st: State) {
    && S.HandlesDistinct(st.seats)
    && A.IdsDistinct(st.surfaces)
    && A.AcceptedDistinct(st.surfaces)
    && F.Exclusive(st.surfaces, Pointer)
    && F.Exclusive(st.surfaces, Touch)
    && NoDuplicates(st.controllers)
  }

  const Initial := State([], [], [])

  /** Exclusivity survives removing a surface context. */
  lemma ExclusiveDropAt(surfaces: seq<A.Surface>, k: nat, bit: DeviceMask)
    requires k < |surfaces| && F.Exclusive(surfaces, bit)
    ensures F.Exclusive(DropAt(surfaces, k), bit)
  {
    var r := DropAt(surfaces, k);
    forall i, j | 0 <= i < j < |r| && F.Holds(r[i], bit) ensures !F.Holds(r[j], bit) {
      assert r[i] == surfaces[if i < k then i else i + 1];
      assert r[j] == surfaces[if j < k then j else j + 1];
    }
  }

  /** Exclusivity survives adding a surface context that holds no focus. */
  lemma ExclusivePrepend(s: A.Surface, surfaces: seq<A.Surface>, bit: DeviceMask)
    requires s.focus == 0 && F.Exclusive(surfaces, bit)
    ensures F.Exclusive([s] + surfaces, bit)
  {
    var r := [s] + surfaces;
    forall i, j | 0 <= i < j < |r| && F.Holds(r[i], bit) ensures !F.Holds(r[j], bit) {
      assert r[i] == surfaces[i - 1] && r[j] == surfaces[j - 1];
    }
  }

  /** Every trigger except a repeated surface creation keeps the invariant, even as written. */
  lemma StepKeepsValid(st: State, tr: Trigger)
    requires Valid(st) && Admissible(st, tr)
    requires !(tr.SurfaceCreate? && A.Tracked(st.surfaces, tr.id))
    ensures Valid(Step(st, tr).next)
  {
    match tr
    case SurfaceCreate(id) => SurfaceCreateKeepsValid(st, id);
    case SurfaceDestroy(id) => SurfaceDestroyKeepsValid(st, id);
    case SetFocus(id, device, enabled) => SetFocusKeepsValid(st, id, device, enabled);
    case SetAcceptance(id, seat, accepted) => SetAcceptanceKeepsValid(st, id, seat, accepted);
    case _ =>
  }

  lemma SurfaceCreateKeepsValid(st: State, id: uint32)
    requires Valid(st) && !A.Tracked(st.surfaces, id)
    ensures Valid(Step(st, SurfaceCreate(id)).next)
  {
    var r := A.HandleSurfaceCreate(st.surfaces, st.controllers, id);
    assert r.next == [r.next[0]] + st.surfaces;
    ExclusivePrepend(r.next[0], st.surfaces, Pointer);
    ExclusivePrepend(r.next[0], st.surfaces, Touch);
    assert A.IdsDistinct(r.next) by {
      forall i, j | 0 <= i < j < |r.next| ensures r.next[i].id != r.next[j].id {
        assert r.next[j] == st.surfaces[j - 1];
        if i > 0 {
          assert r.next[i] == st.surfaces[i - 1];
        }
      }
    }
  }

  lemma SurfaceDestroyKeepsValid(st: State, id: uint32)
    requires Valid(st)
    ensures Valid(Step(st, SurfaceDestroy(id)).next)
  {
    if A.Tracked(st.surfaces, id) {
      var k := A.Find(st.surfaces, id);
      assert Step(st, SurfaceDestroy(id)).next.surfaces == DropAt(st.surfaces, k);
      ExclusiveDropAt(st.surfaces, k, Pointer);
      ExclusiveDropAt(st.surfaces, k, Touch);
    }
  }

  lemma SetFocusKeepsValid(st: State, id: uint32, device: DeviceMask, enabled: int32)
    requires Valid(st)
    ensures Valid(Step(st, SetFocus(id, device, enabled)).next)
  {
    var next := Step(st, SetFocus(id, device, enabled)).next;
    F.SetInputFocusKeepsExclusive(st.surfaces, st.controllers, id, device, enabled, Pointer);
    F.SetInputFocusKeepsExclusive(st.surfaces, st.controllers, id, device, enabled, Touch);
    assert A.IdsDistinct(next.surfaces) by {
      forall i, j | 0 <= i < j < |next.surfaces| ensures next.surfaces[i].id != next.surfaces[j].id {
        assert next.surfaces[i].id == st.surfaces[i].id && next.surfaces[j].id == st.surfaces[j].id;
      }
    }
    assert A.AcceptedDistinct(next.surfaces) by {
      forall i | 0 <= i < |next.surfaces| ensures NoDuplicates(next.surfaces[i].accepted) {
        assert next.surfaces[i].accepted == st.surfaces[i].accepted;
      }
    }
  }

  lemma SetAcceptanceKeepsValid(st: State, id: uint32, seat: string, accepted: int32)
    requires Valid(st)
    ensures Valid(Step(st, SetAcceptance(id, seat, accepted)).next)
  {
    var next := Step(st, SetAcceptance(id, seat, accepted)).next;
    assert A.IdsDistinct(next.surfaces) by {
      forall i, j | 0 <= i < j < |next.surfaces| ensures next.surfaces[i].id != next.surfaces[j].id {
        assert next.surfaces[i].id == st.surfaces[i].id && next.surfaces[j].id == st.surfaces[j].id;
      }
    }
    forall bit | bit == Pointer || bit == Touch ensures F.Exclusive(next.surfaces, bit) {
      forall i, j | 0 <= i < j < |next.surfaces| && F.Holds(next.surfaces[i], bit)
        ensures !F.Holds(next.surfaces[j], bit)
      {
        assert next.surfaces[i].focus == st.surfaces[i].focus && next.surfaces[j].focus == st.surfaces[j].focus;
      }
    }
  }

  /** With surface creation corrected, every trigger keeps the invariant. */
  lemma StepCorrectedKeepsValid(st: State, tr: Trigger)
    requires Valid(st) && Admissible(st, tr)
    ensures Valid(StepCorrected(st, tr).next)
  {
    if !(tr.SurfaceCreate? && A.Tracked(st.surfaces, tr.id)) {
      StepKeepsValid(st, tr);
    }
  }

  /** Surface 7 announced twice to a context with controller 1 bound: two identical contexts. */
  const Doubled := State([], [A.NewSurface(7), A.NewSurface(7)], [1])

  lemma DoubledTrace()
    ensures var s0 := Step(Initial, ControllerBind(1)).next;
      var s1 := Step(s0, SurfaceCreate(7)).next;
      Valid(s1) && Step(s1, SurfaceCreate(7)).next == Doubled
  {
    var s0 := Step(Initial, ControllerBind(1)).next;
    assert s0 == State([], [], [1]);
    var s1 := Step(s0, SurfaceCreate(7)).next;
    assert s1 == State([], [A.NewSurface(7)], [1]);
  }

  /** A focus request on the doubled surface reaches the controller twice. */
  lemma DoubledFocusTwice()
    ensures Received(Step(Doubled, SetFocus(7, Keyboard, IlmTrue)).events, 1)
         == [InputFocus(7, Keyboard, IlmTrue), InputFocus(7, Keyboard, IlmTrue)]
  {
    var s7 := A.NewSurface(7);
    var m := InputFocus(7, Keyboard, IlmTrue);
    F.FocusTrace(Doubled.surfaces, [1], 7, Keyboard, IlmTrue, 1);
    assert F.SingleSurfaceDevices & Keyboard == 0;
    assert F.Notices([s7], 7, Keyboard, IlmTrue, 0) == [m];
    assert Doubled.surfaces[1..] == [s7];
  }

  /** Destroying the doubled surface leaves one of its contexts tracked. */
  lemma DoubledOutlivesDestroy()
    ensures A.Tracked(Step(Doubled, SurfaceDestroy(7)).next.surfaces, 7)
  {
    assert Step(Doubled, SurfaceDestroy(7)).next.surfaces == [A.NewSurface(7)];
  }

  /**
   The surface creation handler as written gives a surface announced twice
   two contexts. Every focus request on it then reaches each controller
   twice, and destroying the surface removes only one context: the other
   stays tracked, still pointing at the destroyed layout surface.
   */
  lemma DuplicateCreateOutlivesDestroy()
    ensures var s0 := Step(Initial, ControllerBind(1)).next;
      var s1 := Step(s0, SurfaceCreate(7)).next;
      && Valid(s1) && Step(s1, SurfaceCreate(7)).next == Doubled && |Doubled.surfaces| == 2
      && Received(Step(Doubled, SetFocus(7, Keyboard, IlmTrue)).events, 1)
         == [InputFocus(7, Keyboard, IlmTrue), InputFocus(7, Keyboard, IlmTrue)]
      && A.Tracked(Step(Doubled, SurfaceDestroy(7)).next.surfaces, 7)
  {
    DoubledTrace();
    DoubledFocusTwice();
    DoubledOutlivesDestroy();
  }

  /**
   With surface creation corrected each surface keeps at most one context,
   so after any step destroying a surface leaves no context for it behind.
   */
  lemma CorrectedDestroyForgets(st: State, tr: Trigger, id: uint32)
    requires Valid(st) && Admissible(st, tr)
    ensures var next := StepCorrected(st, tr).next;
      && A.IdsDistinct(next.surfaces)
      && !A.Tracked(Step(next, SurfaceDestroy(id)).next.surfaces, id)
  {
    StepCorrectedKeepsValid(st, tr);
  }
}
