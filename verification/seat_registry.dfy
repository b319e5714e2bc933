/**
 Input seats as the controller sees them: the capability bitmask derived
 from device counts, the per-class device grabs a seat context holds, and
 the three seat signal handlers (created, capabilities updated, destroyed).
 */
module SeatRegistry {
  import opened Protocol

  /** Identity of a compositor seat object. */
  type SeatHandle = nat

  /** Identity of a compositor keyboard, pointer or touch object. */
  type DeviceHandle = nat

  /** What the compositor exposes of a seat's devices at one moment. */
  datatype Devices = Devices(
    keyboardCount: int, pointerCount: int, touchCount: int,
    keyboard: Option<DeviceHandle>, pointer: Option<DeviceHandle>, touch: Option<DeviceHandle>)

  /**
   The device each grab of a seat context is installed on (None = not
   grabbed). A grab only claims the device; no input flows through it.
   */
  datatype Grabs = Grabs(keyboard: Option<DeviceHandle>, pointer: Option<DeviceHandle>, touch: Option<DeviceHandle>)

  /** A fresh seat context holds no grab. */
  const NoGrabs := Grabs(None, None, None)

  datatype Seat = Seat(handle: SeatHandle, name: string, devices: Devices, grabs: Grabs)

  /** get_seat_capabilities: one bit per device class that has at least one device. */
  function Capabilities(d: Devices): (caps: DeviceMask)
    ensures caps & Keyboard != 0 <==> d.keyboardCount > 0
    ensures caps & Pointer != 0 <==> d.pointerCount > 0
    ensures caps & Touch != 0 <==> d.touchCount > 0
    ensures caps & !(Keyboard | Pointer | Touch) == 0
  {
    var caps: DeviceMask := 0;
    var caps := if d.keyboardCount > 0 then caps | Keyboard else caps;
    var caps := if d.pointerCount > 0 then caps | Pointer else caps;
    if d.touchCount > 0 then caps | Touch else caps
  }

  /**
   One class of handle_seat_updated_caps: start the grab when the seat has
   such a device and the grab is not already on it; otherwise keep the grab.
   */
  function Claim(device: Option<DeviceHandle>, held: Option<DeviceHandle>): (r: Option<DeviceHandle>)
    ensures device.Some? ==> r == device
    ensures device.None? ==> r == held
    ensures held.Some? ==> r.Some?
  {
    if device.Some? && device != held then device else held
  }

  function ClaimAll(d: Devices, g: Grabs): (r: Grabs)
    ensures r.keyboard == (if d.keyboard.Some? then d.keyboard else g.keyboard)
    ensures r.pointer == (if d.pointer.Some? then d.pointer else g.pointer)
    ensures r.touch == (if d.touch.Some? then d.touch else g.touch)
  {
    Grabs(Claim(d.keyboard, g.keyboard), Claim(d.pointer, g.pointer), Claim(d.touch, g.touch))
  }

  /** The seat handles, in seat list order. */
  function Handles(seats: seq<Seat>): (hs: seq<SeatHandle>)
    ensures |hs| == |seats| && forall j :: 0 <= j < |seats| ==> hs[j] == seats[j].handle
  {
    seq(|seats|, j requires 0 <= j < |seats| => seats[j].handle)
  }

  /** Position of the seat with handle `h`, or -1. */
  function Find(seats: seq<Seat>, h: SeatHandle): (i: int)
    ensures -1 <= i < |seats|
    ensures i == -1 <==> forall j :: 0 <= j < |seats| ==> seats[j].handle != h
    ensures 0 <= i ==> seats[i].handle == h && forall j :: 0 <= j < i ==> seats[j].handle != h
  {
    var hs := Handles(seats);
    var i := IndexOf(hs, h);
    assert i == -1 ==> forall j :: 0 <= j < |seats| ==> seats[j].handle != h by {
      if i == -1 {
        forall j | 0 <= j < |seats| ensures seats[j].handle != h {
          assert hs[j] == seats[j].handle;
        }
      }
    }
    assert 0 <= i ==> forall j :: 0 <= j < i ==> seats[j].handle != h by {
      if 0 <= i {
        forall j | 0 <= j < i ensures seats[j].handle != h {
          assert hs[..i][j] == seats[j].handle;
        }
      }
    }
    i
  }

  predicate Tracked(seats: seq<Seat>, h: SeatHandle) {
    exists j :: 0 <= j < |seats| && seats[j].handle == h
  }

  ghost predicate HandlesDistinct(seats: seq<Seat>) {
    forall i, j :: 0 <= i < j < |seats| ==> seats[i].handle != seats[j].handle
  }

  /**
   handle_seat_create: a new seat context without any grab; every controller
   is told the seat's name and current capabilities. The seat itself joins the
   end of the compositor's seat list.
   */
  function HandleSeatCreate(seats: seq<Seat>, controllers: seq<ControllerId>,
                            h: SeatHandle, name: string, d: Devices): (t: Transition<seq<Seat>>)
    requires !Tracked(seats, h)
    ensures |t.next| == |seats| + 1 && t.next[..|seats|] == seats
    ensures t.next[|seats|] == Seat(h, name, d, NoGrabs)
    ensures HandlesDistinct(seats) ==> HandlesDistinct(t.next)
    ensures t.events == Broadcast(controllers, SeatCreated(name, Capabilities(d)))
  {
    var next := seats + [Seat(h, name, d, NoGrabs)];
    assert next[..|seats|] == seats;
    Transition(next, Broadcast(controllers, SeatCreated(name, Capabilities(d))))
  }

  /**
   handle_seat_updated_caps: the seat's devices are replaced, each present
   device class becomes grabbed, and every controller is told the new
   capabilities. No grab is ever released here.
   */
  function HandleSeatUpdatedCaps(seats: seq<Seat>, controllers: seq<ControllerId>,
                                 h: SeatHandle, d: Devices): (t: Transition<seq<Seat>>)
    requires Tracked(seats, h)
    ensures |t.next| == |seats|
    ensures var k := Find(seats, h);
      && t.next[k].handle == h && t.next[k].name == seats[k].name && t.next[k].devices == d
      && (d.keyboard.Some? ==> t.next[k].grabs.keyboard == d.keyboard)
      && (d.pointer.Some? ==> t.next[k].grabs.pointer == d.pointer)
      && (d.touch.Some? ==> t.next[k].grabs.touch == d.touch)
      && (d.keyboard.None? ==> t.next[k].grabs.keyboard == seats[k].grabs.keyboard)
      && (d.pointer.None? ==> t.next[k].grabs.pointer == seats[k].grabs.pointer)
      && (d.touch.None? ==> t.next[k].grabs.touch == seats[k].grabs.touch)
      && (forall j :: 0 <= j < |seats| && j != k ==> t.next[j] == seats[j])
      && t.events == Broadcast(controllers, SeatCapabilities(seats[k].name, Capabilities(d)))
    ensures forall j :: 0 <= j < |seats| ==> t.next[j].handle == seats[j].handle
  {
    var k := Find(seats, h);
    var s := seats[k];
    var updated := s.(devices := d, grabs := ClaimAll(d, s.grabs));
    Transition(seats[k := updated], Broadcast(controllers, SeatCapabilities(s.name, Capabilities(d))))
  }

  /**
   handle_seat_destroy: the seat context, and with it every grab it held, goes
   away; every controller is told the seat's name.
   */
  function HandleSeatDestroy(seats: seq<Seat>, controllers: seq<ControllerId>,
                             h: SeatHandle): (t: Transition<seq<Seat>>)
    requires Tracked(seats, h)
    ensures |t.next| == |seats| - 1
    ensures var k := Find(seats, h);
      && (forall j :: 0 <= j < k ==> t.next[j] == seats[j])
      && (forall j :: k <= j < |t.next| ==> t.next[j] == seats[j + 1])
      && t.events == Broadcast(controllers, SeatDestroyed(seats[k].name))
    ensures HandlesDistinct(seats) ==> HandlesDistinct(t.next) && !Tracked(t.next, h)
  {
    var k := Find(seats, h);
    var next := DropAt(seats, k);
    assert HandlesDistinct(seats) ==> !Tracked(next, h) by {
      if HandlesDistinct(seats) {
        forall j | 0 <= j < |next| ensures next[j].handle != h {
          var j' := if j < k then j else j + 1;
          assert next[j] == seats[j'];
        }
      }
    }
    assert HandlesDistinct(seats) ==> HandlesDistinct(next) by {
      if HandlesDistinct(seats) {
        forall i, j | 0 <= i < j < |next| ensures next[i].handle != next[j].handle {
          var i' := if i < k then i else i + 1;
          var j' := if j < k then j else j + 1;
          assert next[i] == seats[i'] && next[j] == seats[j'];
        }
      }
    }
    Transition(next, Broadcast(controllers, SeatDestroyed(seats[k].name)))
  }
}
