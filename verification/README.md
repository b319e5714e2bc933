# ivi-input-controller: focus and acceptance arbitration, in Dafny

This project models the input controller of the Wayland IVI extension. The
controller is a Weston module that keeps three lists:

- the input seats, each with its device capabilities and the device grabs
  its seat context holds;
- the surface contexts, each with an `ilmInputDevice` focus bitmask and an
  ordered list of accepted seat names;
- the bound `ivi_input` controller clients.

The controller turns compositor signals (seat created / capabilities
updated / destroyed, surface created / destroyed) and two client requests
(`set_input_focus`, `set_input_acceptance`) into updates of those lists and
into `seat_created`, `seat_capabilities`, `seat_destroyed`, `input_focus`
and `input_acceptance` events for the bound clients.

Every handler is a pure function from the part of the state it owns (and
its arguments) to a `Transition(next, events)`. An event is a message
addressed to one controller. Ordering is modelled as in the C lists:

- new surface contexts and new controllers go to the head of their list;
- seats are appended to the end of theirs;
- broadcasts follow controller-list order.

Modules, one per concern of the source file:

- `Protocol`: protocol integers, the device bitmask, `Switch` (what one
  `input_focus` does to a mask), messages and events, and broadcast and
  delivery (`Broadcast`, `Received`).
- `AcceptedSeats`: `get_accepted_seat`, `add_accepted_seat` and
  `remove_accepted_seat`, as functions and as the C search and shift loops.
- `SeatRegistry`: `get_seat_capabilities`, the grab claims of
  `handle_seat_updated_caps`, and the three seat handlers.
- `AcceptanceTable`: surface contexts, `handle_surface_create`,
  `handle_surface_destroy` and `input_set_input_acceptance`.
- `FocusArbiter`: `input_set_input_focus` and its pointer/touch exclusivity
  sweep.
- `ControllerBroadcast`: `bind_ivi_input`, with its replay of seats, focus
  and acceptance, and `unbind_resource_controller`.
- `Engine`: the whole state, one step per trigger, and the invariant the
  steps keep.
- `ClientView`: what a bound client can rebuild from the events it
  receives. It shows that the bind replay and the later events keep a
  client's picture exact, except that surface destruction is never
  announced.

## Model

| member | source | states |
|---|---|---|
| Protocol.IndexOf | ivi-input-controller/src/ivi-input-controller.c:65-75 | the position of the first equal entry, -1 exactly when the name is absent, and no earlier entry is equal |
| Protocol.Switch | ivi-input-controller/src/ivi-input-controller.c:424-428 | ILM_TRUE sets every class of `device`, any other value clears them, and classes outside `device` are untouched |
| Protocol.DropAt | ivi-input-controller/src/ivi-input-controller.c:120-123 | removing entry k shifts the later entries one place forward in order; the result is the old multiset minus that entry |
| Protocol.Broadcast | ivi-input-controller/src/ivi-input-controller.c:128-148 | one event per bound controller, in controller-list order, each carrying the same message |
| Protocol.ReceivedBroadcast | ivi-input-controller/src/ivi-input-controller.c:128-148 | with distinct controllers, a broadcast reaches each bound controller exactly once and nobody else |
| Protocol.ReceivedBroadcastEach | ivi-input-controller/src/ivi-input-controller.c:420-435 | a series of broadcasts reaches each bound controller as the whole series in order, and no one else receives anything |
| AcceptedSeats.Add | ivi-input-controller/src/ivi-input-controller.c:77-103 | always reports success; an already accepted seat leaves the list unchanged; otherwise the seat is appended after the untouched old entries; with distinct names the seat then occurs exactly once |
| AcceptedSeats.OccursOnce | ivi-input-controller/src/ivi-input-controller.c:81-88 | in a duplicate-free list a present name occurs exactly once |
| AcceptedSeats.Remove | ivi-input-controller/src/ivi-input-controller.c:105-126 | reports success exactly when the seat is present; failure leaves the list unchanged; success drops exactly one occurrence, so the length falls by one; distinctness is kept and the seat is then gone |
| AcceptedSeats.FindSeat | ivi-input-controller/src/ivi-input-controller.c:65-75 | the search loop returns the index of the first matching name, or -1 |
| AcceptedSeats.ShiftOut | ivi-input-controller/src/ivi-input-controller.c:120-123 | the shift-left loop and size decrement yield the list without the entry at the index, order kept |
| AcceptedSeats.RemoveAcceptedSeat | ivi-input-controller/src/ivi-input-controller.c:105-126 | the search-then-shift procedure computes exactly the removal outcome: same success flag, same list |
| AcceptedSeats.RemoveIsStableFilter | ivi-input-controller/src/ivi-input-controller.c:105-126 | on a duplicate-free list, removal equals filtering the seat out, so the remaining entries keep their relative order (a stable shift, not a swap) |
| AcceptedSeats.RemoveUndoesAdd | ivi-input-controller/src/ivi-input-controller.c:77-126 | accepting a new seat and then removing it succeeds and restores the original list |
| AcceptedSeats.AddAfterRemove | ivi-input-controller/src/ivi-input-controller.c:77-126 | removing a present seat and accepting it again moves it to the end of the list |
| SeatRegistry.Capabilities | ivi-input-controller/src/ivi-input-controller.c:238-249 | the keyboard, pointer and touch bits are each set iff that class has at least one device, and no other bit is ever set |
| SeatRegistry.Claim | ivi-input-controller/src/ivi-input-controller.c:258-266 | a present device becomes the grabbed one; without a device the grab stays as it was; a held grab is never dropped |
| SeatRegistry.HandleSeatCreate | ivi-input-controller/src/ivi-input-controller.c:297-327 | the new seat joins the end with no grab, earlier seats are untouched, handles stay distinct, and every controller gets seat_created with the seat's capabilities |
| SeatRegistry.HandleSeatUpdatedCaps | ivi-input-controller/src/ivi-input-controller.c:251-273 | only the updated seat changes; each present device class becomes grabbed; a class the new mask lacks keeps its grab exactly as it was; every controller gets seat_capabilities with the new mask |
| SeatRegistry.HandleSeatDestroy | ivi-input-controller/src/ivi-input-controller.c:275-295 | the seat context and its grabs go away, other seats keep their order, the handle is no longer tracked, and every controller gets seat_destroyed |
| AcceptanceTable.NewSurface | ivi-input-controller/src/ivi-input-controller.c:381-384 | a fresh context has focus 0 and accepts exactly the default seat |
| AcceptanceTable.HandleSurfaceCreate | ivi-input-controller/src/ivi-input-controller.c:359-390 | a new context with focus 0 and accepted list ["default"] goes to the head, even when the surface already has one; every controller gets input_acceptance(id, "default", ILM_TRUE) |
| AcceptanceTable.HandleSurfaceCreateOnce | ivi-input-controller/src/ivi-input-controller.c:367-374 | a surface that already has a context is left alone with no event; otherwise the creation above happens; distinct ids stay distinct |
| AcceptanceTable.HandleSurfaceDestroy | ivi-input-controller/src/ivi-input-controller.c:329-357 | the first context with the id is removed, the others keep their order, no event is sent, and an unknown surface changes nothing |
| AcceptanceTable.SetInputAcceptance | ivi-input-controller/src/ivi-input-controller.c:442-467 | an unknown id changes nothing and sends nothing; otherwise only the first context with the id changes; ILM_TRUE adds the seat, any other value removes it stably; the request is echoed to every controller exactly when the add or remove succeeded |
| FocusArbiter.Notices | ivi-input-controller/src/ivi-input-controller.c:420-435 | each context with the id yields input_focus(id, device, enabled); while pointer/touch is being enabled, every other context yields input_focus(its id, mask, ILM_FALSE), in list order; otherwise every notice is input_focus(id, device, enabled) |
| FocusArbiter.NoticesUnswept | ivi-input-controller/src/ivi-input-controller.c:420-435 | when nothing is swept and ids are distinct, the notices are exactly one input_focus(id, device, enabled) if the surface is known and none otherwise |
| FocusArbiter.Refocus | ivi-input-controller/src/ivi-input-controller.c:420-434 | the addressed context's focus is switched by `enabled`; while pointer/touch is being enabled the others lose those classes; otherwise a context is unchanged |
| FocusArbiter.Sweep | ivi-input-controller/src/ivi-input-controller.c:420-435 | the loop refocuses each context in place and sends the notices in list order, each to every controller |
| FocusArbiter.SetInputFocus | ivi-input-controller/src/ivi-input-controller.c:402-440 | every context with the id gets `focus OR device` under ILM_TRUE and `focus AND NOT device` otherwise; under ILM_TRUE every other context loses exactly the requested pointer/touch classes, even when no context matches; keyboard focus elsewhere never changes; nothing else changes when disabling |
| FocusArbiter.SetInputFocusKeepsExclusive | ivi-input-controller/src/ivi-input-controller.c:414-435 | with distinct surface ids, a focus request never leaves two surfaces holding pointer focus, nor two holding touch focus |
| FocusArbiter.EnableGivesSoleFocus | ivi-input-controller/src/ivi-input-controller.c:414-435 | after enabling pointer or touch focus, only contexts of the addressed surface hold the enabled classes |
| FocusArbiter.FocusTrace | ivi-input-controller/src/ivi-input-controller.c:420-435 | each bound controller receives exactly the request's notices, in surface-list order |
| FocusArbiter.UnsweptTrace | ivi-input-controller/src/ivi-input-controller.c:420-435 | for a keyboard request or a disable, each bound controller receives one input_focus for a known surface and nothing for an unknown one |
| ControllerBroadcast.Bind | ivi-input-controller/src/ivi-input-controller.c:474-523 | the new controller goes to the head of the list and alone receives seat_created per seat, then input_focus(id, focus, ILM_TRUE) per surface including focus 0, then input_acceptance per accepted name, surface by surface in array order |
| ControllerBroadcast.BindReplay | ivi-input-controller/src/ivi-input-controller.c:502-522 | the bound controller receives the seat, focus and acceptance series back to back, and every other controller receives nothing |
| ControllerBroadcast.AcceptanceMessages | ivi-input-controller/src/ivi-input-controller.c:514-522 | one message per accepted name over all surfaces, starting with the first surface's names in order |
| ControllerBroadcast.AcceptanceMessagesAt | ivi-input-controller/src/ivi-input-controller.c:514-522 | the k-th accepted name of the j-th surface is sent at position (names accepted by the surfaces before j) + k, as input_acceptance(its id, that name, ILM_TRUE) |
| ControllerBroadcast.Unbind | ivi-input-controller/src/ivi-input-controller.c:392-400 | the controller is unlinked, the others keep their order, it no longer occurs, and nothing is sent |
| Engine.Step | ivi-input-controller/src/ivi-input-controller.c:251-523 | each trigger changes only the list its handler owns: seat signals the seats, surface signals and requests the surfaces, bind and unbind the controllers |
| Engine.StepCorrected | ivi-input-controller/src/ivi-input-controller.c:367-374 | the same step, except that a repeated surface creation changes nothing and sends nothing |
| Engine.StepKeepsValid | ivi-input-controller/src/ivi-input-controller.c:329-467 | every step except a repeated surface creation keeps seat handles, surface ids and controllers distinct, accepted lists duplicate-free, and pointer and touch focus each on at most one surface |
| Engine.StepCorrectedKeepsValid | ivi-input-controller/src/ivi-input-controller.c:359-390 | with the repeated-creation guard, every step keeps the invariant |
| Engine.DuplicateCreateOutlivesDestroy | ivi-input-controller/src/ivi-input-controller.c:359-390 | after surface 7 is created twice, a keyboard focus request on 7 reaches the controller twice, and destroying 7 once leaves a context for 7 tracked |
| Engine.CorrectedDestroyForgets | ivi-input-controller/src/ivi-input-controller.c:329-390 | with the repeated-creation guard, ids stay distinct and one destroy leaves no context for the surface |
| ClientView.ObserveBroadcast | ivi-input-controller/src/ivi-input-controller.c:128-148 | a bound client observing its share of a broadcast sees the message exactly once |
| ClientView.ReplayAgrees | ivi-input-controller/src/ivi-input-controller.c:474-523 | from nothing, the bind replay gives a new client exactly the live seats with their capabilities, and each surface's focus and accepted seats |
| ClientView.StepKeepsAgreement | ivi-input-controller/src/ivi-input-controller.c:251-467 | a bound client whose picture is exact stays exact after any seat, focus, acceptance, bind or unbind step, and after a (guarded) surface creation |
| ClientView.SurfaceDestroyUnseen | ivi-input-controller/src/ivi-input-controller.c:329-357 | destroying a surface sends no event: a bound client keeps believing the surface accepts seats, while a client that binds afterwards sees none |

## Left out

- Wayland and Weston plumbing is not modelled: resource creation and implementation tables, `wl_signal_add`, `create_input_context` and `controller_module_init` (lines 525-576), and `weston_log`. Controllers are opaque ids, and signals are direct calls to the handlers.
- The grab interface callbacks (lines 150-236) have empty bodies and carry no input. A grab is modelled only as the device it is installed on. The grab cancellation in `handle_seat_destroy` disappears with the seat context.
- `get_id_of_surface` is a call into the layout subsystem. Each surface context stores its numeric id directly, and one id is assumed to stand for one layout surface.
- Allocation failures are not modelled: `calloc`, `wl_array_add` and `strdup` returning NULL (lines 89-101, 304-308, 376-380, 484-489). This includes the `strdup` failure that leaves a grown array with a NULL slot.
- `ilm_types.h` is not part of this model. The device bits (keyboard 1, pointer 2, touch 4) and ILM_TRUE = 1 are taken as constants.
- The seat list belongs to the compositor and is not in the source file. It is modelled as appending each new seat.
- `ivi-layermanagement-api/test/ilm_control_test.cpp` needs a live compositor and exercises layer geometry, not this module. Nothing of it is modelled.
- A duplicate accept is echoed to every controller, because `add_accepted_seat` reports success for an already accepted seat. The model follows the code.
- Surface destruction is never announced to controllers. The model follows the code; `ClientView.SurfaceDestroyUnseen` states the consequence.
- ClientView.StepKeepsAgreement: stated for distinct seat names and a newly named seat on creation, because a client's picture is keyed by seat name. It is also stated for the guarded surface creation only, since repeated creation is the finding below.
- ClientView.ReplayAgrees: stated for distinct seat names, because a client's picture is keyed by seat name and a repeated name would merge two seats in it.
- ClientView.SurfaceDestroyUnseen: stated for distinct seat names, for the same reason as ClientView.ReplayAgrees.

## Findings

| source | as written | input that shows it | evidently intended | confidence | as-written member | corrected member |
|---|---|---|---|---|---|---|
| ivi-input-controller/src/ivi-input-controller.c:367-374 | the duplicate check only logs and breaks out of the search, then a second context is created for the same surface | surface 7 created twice: a focus request on 7 then reaches each controller twice, and destroying 7 once leaves a context for 7 tracked, whose layout surface later focus and bind handling keep using (lines 422, 456, 512) | one context per surface: a repeated creation is ignored, so each request is notified once and a destroy leaves nothing behind | not executed | Engine.DuplicateCreateOutlivesDestroy | Engine.CorrectedDestroyForgets |
