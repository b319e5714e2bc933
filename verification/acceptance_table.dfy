/**
 The surfaces the controller tracks, each with its focus bitmask and its
 ordered list of accepted seat names: surface creation and destruction, and
 the set_input_acceptance request.
 */
module AcceptanceTable {
  import opened Protocol
  import AcceptedSeats

  /** One tracked surface context. The list of contexts is kept newest first. */
  datatype Surface = Surface(id: uint32, focus: DeviceMask, accepted: seq<string>)

  /** The surface ids, in list order. */
  function Ids(surfaces: seq<Surface>): (ids: seq<uint32>)
    ensures |ids| == |surfaces| && forall j :: 0 <= j < |surfaces| ==> ids[j] == surfaces[j].id
  {
    seq(|surfaces|, j requires 0 <= j < |surfaces| => surfaces[j].id)
  }

  /** Position of the first surface context with this id, or -1. */
  function Find(surfaces: seq<Surface>, id: uint32): (i: int)
    ensures -1 <= i < |surfaces|
    ensures i == -1 <==> forall j :: 0 <= j < |surfaces| ==> surfaces[j].id != id
    ensures 0 <= i ==> surfaces[i].id == id && forall j :: 0 <= j < i ==> surfaces[j].id != id
  {
    var ids := Ids(surfaces);
    var i := IndexOf(ids, id);
    assert i == -1 ==> forall j :: 0 <= j < |surfaces| ==> surfaces[j].id != id by {
      if i == -1 {
        forall j | 0 <= j < |surfaces| ensures surfaces[j].id != id {
          assert ids[j] == surfaces[j].id;
        }
      }
    }
    assert 0 <= i ==> forall j :: 0 <= j < i ==> surfaces[j].id != id by {
      if 0 <= i {
        forall j | 0 <= j < i ensures surfaces[j].id != id {
          assert ids[..i][j] == surfaces[j].id;
        }
      }
    }
    i
  }

  predicate Tracked(surfaces: seq<Surface>, id: uint32) {
    exists j :: 0 <= j < |surfaces| && surfaces[j].id == id
  }

  ghost predicate IdsDistinct(surfaces: seq<Surface>) {
    forall i, j :: 0 <= i < j < |surfaces| ==> surfaces[i].id != surfaces[j].id
  }

  /** No surface accepts the same seat name twice. */
  ghost predicate AcceptedDistinct(surfaces: seq<Surface>) {
    forall i :: 0 <= i < |surfaces| ==> NoDuplicates(surfaces[i].accepted)
  }

  /** A fresh surface context: no focus, and the default seat accepted through add_accepted_seat. */
  function NewSurface(id: uint32): (s: Surface)
    ensures s.id == id && s.focus == 0 && s.accepted == [DefaultSeat]
    ensures NoDuplicates(s.accepted)
  {
    Surface(id, 0, AcceptedSeats.Add([], DefaultSeat).names)
  }

  /**
   handle_surface_create as written: the duplicate check only logs, so a new
   context is created and put at the head of the list even when one for the
   same surface exists; every controller is told the default seat is accepted.
   */
  function HandleSurfaceCreate(surfaces: seq<Surface>, controllers: seq<ControllerId>,
                               id: uint32): (t: Transition<seq<Surface>>)
    ensures |t.next| == |surfaces| + 1 && t.next[1..] == surfaces
    ensures t.next[0].id == id && t.next[0].focus == 0 && t.next[0].accepted == [DefaultSeat]
    ensures t.events == Broadcast(controllers, InputAcceptance(id, DefaultSeat, IlmTrue))
    ensures AcceptedDistinct(surfaces) ==> AcceptedDistinct(t.next)
  {
    var next := [NewSurface(id)] + surfaces;
    assert next[1..] == surfaces;
    Transition(next, Broadcast(controllers, InputAcceptance(id, DefaultSeat, IlmTrue)))
  }

  /**
   handle_surface_create as the warning it logs intends: a surface that
   already has a context is left alone and nothing is sent.
   */
  function HandleSurfaceCreateOnce(surfaces: seq<Surface>, controllers: seq<ControllerId>,
                                   id: uint32): (t: Transition<seq<Surface>>)
    ensures Tracked(surfaces, id) ==> t.next == surfaces && t.events == []
    ensures !Tracked(surfaces, id) ==> t == HandleSurfaceCreate(surfaces, controllers, id)
    ensures IdsDistinct(surfaces) ==> IdsDistinct(t.next)
    ensures AcceptedDistinct(surfaces) ==> AcceptedDistinct(t.next)
  {
    if Find(surfaces, id) >= 0 then Transition(surfaces, [])
    else
      var t := HandleSurfaceCreate(surfaces, controllers, id);
      assert IdsDistinct(surfaces) ==> IdsDistinct(t.next) by {
        if IdsDistinct(surfaces) {
          forall i, j | 0 <= i < j < |t.next| ensures t.next[i].id != t.next[j].id {
            assert t.next[j] == surfaces[j - 1];
            if i > 0 {
              assert t.next[i] == surfaces[i - 1];
            }
          }
        }
      }
      t
  }

  /**
   handle_surface_destroy: the first context of the surface is unlinked and
   freed with its accepted names; nothing is sent. An unknown surface is
   only logged.
   */
  function HandleSurfaceDestroy(surfaces: seq<Surface>, id: uint32): (t: Transition<seq<Surface>>)
    ensures t.events == []
    ensures !Tracked(surfaces, id) ==> t.next == surfaces
    ensures Tracked(surfaces, id) ==>
      var k := Find(surfaces, id);
      && |t.next| == |surfaces| - 1
      && (forall j :: 0 <= j < k ==> t.next[j] == surfaces[j])
      && (forall j :: k <= j < |t.next| ==> t.next[j] == surfaces[j + 1])
    ensures IdsDistinct(surfaces) ==> IdsDistinct(t.next) && !Tracked(t.next, id)
    ensures AcceptedDistinct(surfaces) ==> AcceptedDistinct(t.next)
  {
    var k := Find(surfaces, id);
    if k < 0 then Transition(surfaces, [])
    else
      var next := DropAt(surfaces, k);
      assert forall j :: 0 <= j < |next| ==> next[j] == surfaces[if j < k then j else j + 1];
      assert IdsDistinct(surfaces) ==> IdsDistinct(next) && !Tracked(next, id) by {
        if IdsDistinct(surfaces) {
          forall i, j | 0 <= i < j < |next| ensures next[i].id != next[j].id {
            assert next[i] == surfaces[if i < k then i else i + 1];
            assert next[j] == surfaces[if j < k then j else j + 1];
          }
          forall j | 0 <= j < |next| ensures next[j].id != id {
            assert next[j] == surfaces[if j < k then j else j + 1];
          }
        }
      }
      Transition(next, [])
  }

  /** The add or remove a set_input_acceptance request performs; only ILM_TRUE accepts. */
  function Apply(names: seq<string>, seat: string, accepted: int32): AcceptedSeats.Update
  {
    if accepted == IlmTrue then AcceptedSeats.Add(names, seat)
    else AcceptedSeats.Remove(names, seat)
  }

  /**
   input_set_input_acceptance: the first context with the id gets the seat
   added (ILM_TRUE) or removed (any other value); the request is echoed to
   every controller exactly when that add or remove reported success.
   */
  function SetInputAcceptance(surfaces: seq<Surface>, controllers: seq<ControllerId>,
                              id: uint32, seat: string, accepted: int32): (t: Transition<seq<Surface>>)
    ensures |t.next| == |surfaces|
    ensures forall j :: 0 <= j < |surfaces| ==>
      t.next[j].id == surfaces[j].id && t.next[j].focus == surfaces[j].focus
    ensures forall j :: 0 <= j < |surfaces| && j != Find(surfaces, id) ==> t.next[j] == surfaces[j]
    ensures !Tracked(surfaces, id) ==> t.next == surfaces && t.events == []
    ensures Tracked(surfaces, id) && accepted == IlmTrue ==>
      var k := Find(surfaces, id);
      && seat in t.next[k].accepted
      && (seat in surfaces[k].accepted ==> t.next[k].accepted == surfaces[k].accepted)
      && (seat !in surfaces[k].accepted ==> t.next[k].accepted == surfaces[k].accepted + [seat])
    ensures Tracked(surfaces, id) && accepted != IlmTrue ==>
      var k := Find(surfaces, id);
      && (seat !in surfaces[k].accepted ==> t.next[k].accepted == surfaces[k].accepted)
      && (NoDuplicates(surfaces[k].accepted) ==>
            t.next[k].accepted == AcceptedSeats.Without(surfaces[k].accepted, seat))
    ensures t.events ==
      if Tracked(surfaces, id) && (accepted == IlmTrue || seat in surfaces[Find(surfaces, id)].accepted)
      then Broadcast(controllers, InputAcceptance(id, seat, accepted))
      else []
    ensures AcceptedDistinct(surfaces) ==> AcceptedDistinct(t.next)
  {
    var k := Find(surfaces, id);
    if k < 0 then Transition(surfaces, [])
    else
      var u := Apply(surfaces[k].accepted, seat, accepted);
      assert accepted == IlmTrue && seat !in surfaces[k].accepted ==>
        u.names == u.names[..|surfaces[k].accepted|] + [seat];
      assert accepted != IlmTrue && NoDuplicates(surfaces[k].accepted) ==>
        u.names == AcceptedSeats.Without(surfaces[k].accepted, seat) by {
        if accepted != IlmTrue && NoDuplicates(surfaces[k].accepted) {
          AcceptedSeats.RemoveIsStableFilter(surfaces[k].accepted, seat);
        }
      }
      var next := surfaces[k := surfaces[k].(accepted := u.names)];
      Transition(next, if u.ok then Broadcast(controllers, InputAcceptance(id, seat, accepted)) else [])
  }
}
