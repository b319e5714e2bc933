/**
 The set_input_focus request: the focus bitmask of the addressed surface
 is updated, and enabling pointer or touch focus takes those classes away
 from every other surface, so that each of them is held by at most one
 surface.
 */
module FocusArbiter {
  import opened Protocol
  import opened AcceptanceTable

  /** Device classes only one surface may hold focus for. */
  const SingleSurfaceDevices: DeviceMask := Pointer | Touch

  /** The notice a surface context gives rise to, if any. */
  function Notice(s: Surface, id: uint32, device: DeviceMask, enabled: int32, mask: DeviceMask): Option<Message>
  {
    if s.id == id then Some(InputFocus(id, device, enabled))
    else if mask != 0 && enabled == IlmTrue then Some(InputFocus(s.id, mask, IlmFalse))
    else None
  }

  /** The notices of a list of surface contexts, in list order. */
  function Notices(surfaces: seq<Surface>, id: uint32, device: DeviceMask, enabled: int32, mask: DeviceMask): (ms: seq<Message>)
    ensures |ms| <= |surfaces|
    ensures forall j :: 0 <= j < |surfaces| && surfaces[j].id == id ==> InputFocus(id, device, enabled) in ms
    ensures mask != 0 && enabled == IlmTrue ==> |ms| == |surfaces| && forall j :: 0 <= j < |surfaces| ==>
      ms[j] == if surfaces[j].id == id then InputFocus(id, device, enabled) else InputFocus(surfaces[j].id, mask, IlmFalse)
    ensures !(mask != 0 && enabled == IlmTrue) ==> forall m :: m in ms ==> m == InputFocus(id, device, enabled)
    ensures !(mask != 0 && enabled == IlmTrue) && !Tracked(surfaces, id) ==> ms == []
  {
    if surfaces == [] then []
    else
      var rest := Notices(surfaces[1..], id, device, enabled, mask);
      match Notice(surfaces[0], id, device, enabled, mask)
      case None => rest
      case Some(m) => [m] + rest
  }

  /**
   When nothing is swept (focus is disabled, or only keyboard focus is
   enabled) and surface ids are distinct, the request gives exactly one
   notice, for the addressed surface, and none when it is not tracked.
   */
  lemma {:induction false} NoticesUnswept(surfaces: seq<Surface>, id: uint32, device: DeviceMask, enabled: int32, mask: DeviceMask)
    requires IdsDistinct(surfaces) && !(mask != 0 && enabled == IlmTrue)
    ensures Notices(surfaces, id, device, enabled, mask)
         == if Tracked(surfaces, id) then [InputFocus(id, device, enabled)] else []
  {
    if surfaces != [] {
      var rest := surfaces[1..];
      assert IdsDistinct(rest) by {
        forall i, j | 0 <= i < j < |rest| ensures rest[i].id != rest[j].id {
          assert rest[i] == surfaces[i + 1] && rest[j] == surfaces[j + 1];
        }
      }
      NoticesUnswept(rest, id, device, enabled, mask);
      if surfaces[0].id == id {
        assert !Tracked(rest, id) by {
          forall j | 0 <= j < |rest| ensures rest[j].id != id {
            assert rest[j] == surfaces[j + 1];
          }
        }
      } else {
        assert Tracked(surfaces, id) ==> Tracked(rest, id) by {
          if Tracked(surfaces, id) {
            var j :| 0 <= j < |surfaces| && surfaces[j].id == id;
            assert rest[j - 1].id == id;
          }
        }
        assert Tracked(rest, id) ==> Tracked(surfaces, id) by {
          if Tracked(rest, id) {
            var j :| 0 <= j < |rest| && rest[j].id == id;
            assert surfaces[j + 1].id == id;
          }
        }
      }
    }
  }

  /** The focus of one surface context after the request. */
  function Refocus(s: Surface, id: uint32, device: DeviceMask, enabled: int32, mask: DeviceMask): (r: Surface)
    ensures r.id == s.id && r.accepted == s.accepted
    ensures s.id == id ==> r.focus == Switch(s.focus, device, enabled)
    ensures s.id != id && mask != 0 && enabled == IlmTrue ==> r.focus == s.focus & !mask
    ensures s.id != id && !(mask != 0 && enabled == IlmTrue) ==> r == s
  {
    if s.id == id then
      s.(focus := Switch(s.focus, device, enabled))
    else if mask != 0 && enabled == IlmTrue then s.(focus := s.focus & !mask)
    else s
  }

  /** Clearing the single-surface classes of a request never touches the keyboard bit. */
  lemma SweepKeepsKeyboard(focus: DeviceMask, device: DeviceMask)
    ensures (focus & !(device & SingleSurfaceDevices)) & Keyboard == focus & Keyboard
    ensures focus & !(SingleSurfaceDevices & device) == focus & !(device & SingleSurfaceDevices)
    ensures SingleSurfaceDevices & device == 0 ==> focus & !(device & SingleSurfaceDevices) == focus
  {
  }

  function Send(controllers: seq<ControllerId>, notice: Option<Message>): seq<Event>
  {
    match notice
    case None => []
    case Some(m) => Broadcast(controllers, m)
  }

  /** The loop of input_set_input_focus over the surface list, one context at a time. */
  function Sweep(surfaces: seq<Surface>, controllers: seq<ControllerId>,
                 id: uint32, device: DeviceMask, enabled: int32, mask: DeviceMask): (t: Transition<seq<Surface>>)
    ensures |t.next| == |surfaces|
    ensures forall j :: 0 <= j < |surfaces| ==> t.next[j] == Refocus(surfaces[j], id, device, enabled, mask)
    ensures t.events == BroadcastEach(controllers, Notices(surfaces, id, device, enabled, mask))
  {
    if surfaces == [] then Transition([], [])
    else
      var s := surfaces[0];
      var rest := Sweep(surfaces[1..], controllers, id, device, enabled, mask);
      var next := [Refocus(s, id, device, enabled, mask)] + rest.next;
      assert forall j :: 0 <= j < |surfaces| ==> next[j] == Refocus(surfaces[j], id, device, enabled, mask) by {
        forall j | 1 <= j < |surfaces| ensures next[j] == Refocus(surfaces[j], id, device, enabled, mask) {
          assert next[j] == rest.next[j - 1] && surfaces[j] == surfaces[1..][j - 1];
        }
      }
      SendNotice(surfaces, controllers, id, device, enabled, mask);
      Transition(next, Send(controllers, Notice(s, id, device, enabled, mask)) + rest.events)
  }

  /** The head's notice is broadcast before the notices of the rest of the list. */
  lemma SendNotice(surfaces: seq<Surface>, controllers: seq<ControllerId>,
                   id: uint32, device: DeviceMask, enabled: int32, mask: DeviceMask)
    requires surfaces != []
    ensures BroadcastEach(controllers, Notices(surfaces, id, device, enabled, mask))
         == Send(controllers, Notice(surfaces[0], id, device, enabled, mask))
            + BroadcastEach(controllers, Notices(surfaces[1..], id, device, enabled, mask))
  {
    var rest := Notices(surfaces[1..], id, device, enabled, mask);
    match Notice(surfaces[0], id, device, enabled, mask)
    case None =>
      assert [] + BroadcastEach(controllers, rest) == BroadcastEach(controllers, rest);
    case Some(m) =>
      assert ([m] + rest)[0] == m && ([m] + rest)[1..] == rest;
  }

  /**
   input_set_input_focus. Every context with the id gets `device` set
   (ILM_TRUE) or cleared (any other value) and is echoed to every
   controller; when pointer or touch focus is being enabled, every other
   context loses those classes and every controller is told so. The sweep
   runs even when no context has the id.
   */
  function SetInputFocus(surfaces: seq<Surface>, controllers: seq<ControllerId>,
                         id: uint32, device: DeviceMask, enabled: int32): (t: Transition<seq<Surface>>)
    ensures |t.next| == |surfaces|
    ensures forall j :: 0 <= j < |surfaces| ==>
      t.next[j].id == surfaces[j].id && t.next[j].accepted == surfaces[j].accepted
    ensures enabled == IlmTrue ==> forall j :: 0 <= j < |surfaces| && surfaces[j].id == id ==>
      t.next[j].focus == surfaces[j].focus | device
    ensures enabled != IlmTrue ==> forall j :: 0 <= j < |surfaces| && surfaces[j].id == id ==>
      t.next[j].focus == surfaces[j].focus & !device
    ensures forall j :: 0 <= j < |surfaces| && surfaces[j].id != id ==>
      t.next[j].focus & Keyboard == surfaces[j].focus & Keyboard
    ensures enabled == IlmTrue ==> forall j :: 0 <= j < |surfaces| && surfaces[j].id != id ==>
      t.next[j].focus == surfaces[j].focus & !(device & SingleSurfaceDevices)
    ensures enabled != IlmTrue ==> forall j :: 0 <= j < |surfaces| && surfaces[j].id != id ==>
      t.next[j] == surfaces[j]
    ensures t.events == BroadcastEach(controllers, Notices(surfaces, id, device, enabled, SingleSurfaceDevices & device))
  {
    var mask := SingleSurfaceDevices & device;
    var t := Sweep(surfaces, controllers, id, device, enabled, mask);
    forall j | 0 <= j < |surfaces| {
      RequestRefocus(surfaces[j], id, device, enabled);
    }
    t
  }

  /** Refocus with the request's own single-surface mask, stated bit by bit. */
  lemma RequestRefocus(s: Surface, id: uint32, device: DeviceMask, enabled: int32)
    ensures var r := Refocus(s, id, device, enabled, SingleSurfaceDevices & device);
      && (s.id != id ==> r.focus & Keyboard == s.focus & Keyboard)
      && (s.id != id && enabled == IlmTrue ==> r.focus == s.focus & !(device & SingleSurfaceDevices))
  {
    SweepKeepsKeyboard(s.focus, device);
  }

  /** The surface context holds focus for some class of `bits`. */
  predicate Holds(s: Surface, bits: DeviceMask) {
    s.focus & bits != 0
  }

  /** At most one surface context holds focus for `bit`. */
  ghost predicate Exclusive(surfaces: seq<Surface>, bit: DeviceMask) {
    forall i, j :: 0 <= i < j < |surfaces| && Holds(surfaces[i], bit) ==> !Holds(surfaces[j], bit)
  }

  /**
   With distinct surface ids, a focus request never leaves two surfaces
   holding pointer focus, nor two holding touch focus.
   */
  lemma SetInputFocusKeepsExclusive(surfaces: seq<Surface>, controllers: seq<ControllerId>,
                                    id: uint32, device: DeviceMask, enabled: int32, bit: DeviceMask)
    requires bit == Pointer || bit == Touch
    requires IdsDistinct(surfaces) && Exclusive(surfaces, bit)
    ensures Exclusive(SetInputFocus(surfaces, controllers, id, device, enabled).next, bit)
  {
    var mask := SingleSurfaceDevices & device;
    var next := Sweep(surfaces, controllers, id, device, enabled, mask).next;
    assert next == SetInputFocus(surfaces, controllers, id, device, enabled).next;
    if enabled == IlmTrue && device & bit != 0 {
      forall j | 0 <= j < |surfaces| && surfaces[j].id != id ensures !Holds(next[j], bit) {
        RefocusTakes(surfaces[j], id, device, bit);
      }
    } else {
      forall j | 0 <= j < |surfaces| && Holds(next[j], bit) ensures Holds(surfaces[j], bit) {
        RefocusGivesNothing(surfaces[j], id, device, enabled, bit);
      }
    }
  }

  /** Enabling a class on another surface takes that class away from this one. */
  lemma RefocusTakes(s: Surface, id: uint32, device: DeviceMask, bit: DeviceMask)
    requires bit == Pointer || bit == Touch
    requires s.id != id && device & bit != 0
    ensures !Holds(Refocus(s, id, device, IlmTrue, SingleSurfaceDevices & device), bit)
  {
    ClearedBits(s.focus, device & SingleSurfaceDevices);
    SweepKeepsKeyboard(s.focus, device);
  }

  /** A request that does not enable `bit` gives it to no surface that lacked it. */
  lemma RefocusGivesNothing(s: Surface, id: uint32, device: DeviceMask, enabled: int32, bit: DeviceMask)
    requires bit == Pointer || bit == Touch
    requires !(enabled == IlmTrue && device & bit != 0)
    ensures Holds(Refocus(s, id, device, enabled, SingleSurfaceDevices & device), bit) ==> Holds(s, bit)
  {
    var r := Refocus(s, id, device, enabled, SingleSurfaceDevices & device);
    if s.id == id && enabled == IlmTrue {
      SetOtherBits(s.focus, device, bit);
      assert Holds(r, bit) ==> Holds(s, bit);
    } else if s.id == id {
      ClearBits(s.focus, device, bit);
      assert Holds(r, bit) ==> Holds(s, bit);
    } else if SingleSurfaceDevices & device != 0 && enabled == IlmTrue {
      ClearBits(s.focus, SingleSurfaceDevices & device, bit);
      assert Holds(r, bit) ==> Holds(s, bit);
    }
  }

  lemma SetOtherBits(focus: DeviceMask, device: DeviceMask, bit: DeviceMask)
    requires device & bit == 0
    ensures (focus | device) & bit == focus & bit
  {
  }

  lemma ClearBits(focus: DeviceMask, mask: DeviceMask, bit: DeviceMask)
    ensures (focus & !mask) & bit != 0 ==> focus & bit != 0
  {
  }

  /**
   Enabling pointer or touch focus on a tracked surface leaves it the only
   holder of those classes: any surface holding one of them afterwards is
   the addressed one.
   */
  lemma EnableGivesSoleFocus(surfaces: seq<Surface>, controllers: seq<ControllerId>,
                             id: uint32, device: DeviceMask)
    ensures var next := SetInputFocus(surfaces, controllers, id, device, IlmTrue).next;
      forall j :: 0 <= j < |surfaces| && next[j].focus & (device & SingleSurfaceDevices) != 0 ==> surfaces[j].id == id
  {
    var next := SetInputFocus(surfaces, controllers, id, device, IlmTrue).next;
    forall j | 0 <= j < |surfaces| && surfaces[j].id != id
      ensures next[j].focus & (device & SingleSurfaceDevices) == 0
    {
      ClearedBits(surfaces[j].focus, device & SingleSurfaceDevices);
    }
  }

  lemma ClearedBits(focus: DeviceMask, mask: DeviceMask)
    ensures (focus & !mask) & mask == 0
  {
  }

  /**
   What one controller sees of a focus request: the notices in surface
   order, one per surface with the id and, when pointer or touch focus is
   enabled, one per other surface.
   */
  lemma FocusTrace(surfaces: seq<Surface>, controllers: seq<ControllerId>,
                   id: uint32, device: DeviceMask, enabled: int32, c: ControllerId)
    requires NoDuplicates(controllers) && c in controllers
    ensures Received(SetInputFocus(surfaces, controllers, id, device, enabled).events, c)
         == Notices(surfaces, id, device, enabled, SingleSurfaceDevices & device)
  {
    ReceivedBroadcastEach(controllers, Notices(surfaces, id, device, enabled, SingleSurfaceDevices & device), c);
  }

  /**
   A request that sweeps nothing reaches each bound controller as exactly one
   input_focus for the addressed surface, or as nothing when it is unknown.
   */
  lemma UnsweptTrace(surfaces: seq<Surface>, controllers: seq<ControllerId>,
                     id: uint32, device: DeviceMask, enabled: int32, c: ControllerId)
    requires NoDuplicates(controllers) && c in controllers && IdsDistinct(surfaces)
    requires !(SingleSurfaceDevices & device != 0 && enabled == IlmTrue)
    ensures Received(SetInputFocus(surfaces, controllers, id, device, enabled).events, c)
         == if Tracked(surfaces, id) then [InputFocus(id, device, enabled)] else []
  {
    FocusTrace(surfaces, controllers, id, device, enabled, c);
    NoticesUnswept(surfaces, id, device, enabled, SingleSurfaceDevices & device);
  }

}
