/**
 The per-surface list of accepted seat names: a growable array of strings
 used as an insertion-ordered set (get_accepted_seat, add_accepted_seat,
 remove_accepted_seat).
 */
module AcceptedSeats {
  import opened Protocol

  /** The new list and the handler's return value (nonzero = true). */
  datatype Update = Update(names: seq<string>, ok: bool)

  /** Accepting a seat: a name already present is reported as success with the list unchanged. */
  function Add(names: seq<string>, seat: string): (u: Update)
    ensures u.ok
    ensures seat in names ==> u.names == names
    ensures seat !in names ==> |u.names| == |names| + 1 && u.names[..|names|] == names && u.names[|names|] == seat
    ensures NoDuplicates(names) ==> NoDuplicates(u.names) && multiset(u.names)[seat] == 1
  {
    if IndexOf(names, seat) >= 0 then
      assert NoDuplicates(names) ==> multiset(names)[seat] == 1 by {
        if NoDuplicates(names) {
          OccursOnce(names, seat);
        }
      }
      Update(names, true)
    else
      var r := names + [seat];
      assert r[..|names|] == names;
      assert NoDuplicates(names) ==> multiset(r)[seat] == 1 by {
        if NoDuplicates(names) {
          assert seat !in multiset(names);
          assert multiset(r) == multiset(names) + multiset{seat};
        }
      }
      Update(r, true)
  }

  /** In a duplicate-free list a present name has multiplicity one. */
  lemma {:induction false} OccursOnce(names: seq<string>, seat: string)
    requires NoDuplicates(names) && seat in names
    ensures multiset(names)[seat] == 1
  {
    var rest := names[1..];
    assert names == [names[0]] + rest;
    if names[0] == seat {
      assert seat !in rest by {
        forall j | 0 <= j < |rest| ensures rest[j] != seat {
          assert rest[j] == names[j + 1];
        }
      }
    } else {
      assert NoDuplicates(rest) by {
        forall i, j | 0 <= i < j < |rest| ensures rest[i] != rest[j] {
          assert rest[i] == names[i + 1] && rest[j] == names[j + 1];
        }
      }
      OccursOnce(rest, seat);
    }
  }

  /** Removing a seat: a name not present is reported as failure with the list unchanged. */
  function Remove(names: seq<string>, seat: string): (u: Update)
    ensures u.ok <==> seat in names
    ensures !u.ok ==> u.names == names
    ensures u.ok ==> |u.names| == |names| - 1
    ensures u.ok ==> multiset(u.names) == multiset(names) - multiset{seat}
    ensures NoDuplicates(names) ==> NoDuplicates(u.names) && seat !in u.names
  {
    var k := IndexOf(names, seat);
    if k < 0 then Update(names, false)
    else
      assert NoDuplicates(names) ==> NoDuplicates(DropAt(names, k)) && seat !in DropAt(names, k) by {
        if NoDuplicates(names) {
          DropAtDistinct(names, k);
        }
      }
      Update(DropAt(names, k), true)
  }

  /**
   remove_accepted_seat as written: search, then shift every later entry one
   slot to the left and shrink the array by one element.
   */
  method RemoveAcceptedSeat(names: seq<string>, seat: string) returns (u: Update)
    ensures u == Remove(names, seat)
  {
    var index := FindSeat(names, seat);
    if index < 0 {
      return Update(names, false);
    }
    var data := ShiftOut(names, index);
    u := Update(data, true);
  }

  /** get_accepted_seat, the search add_accepted_seat and remove_accepted_seat share: the first slot holding the name, or -1. */
  method FindSeat(names: seq<string>, seat: string) returns (index: int)
    ensures index == IndexOf(names, seat)
  {
    index := -1;
    var i := 0;
    while i < |names| && index < 0
      invariant 0 <= i <= |names|
      invariant index < 0 ==> seat !in names[..i]
      invariant index >= 0 ==> index == IndexOf(names, seat)
    {
      if names[i] == seat {
        index := i;
        assert names[..i + 1] == names[..i] + [seat];
      } else {
        assert names[..i + 1] == names[..i] + [names[i]];
      }
      i := i + 1;
    }
    if index < 0 {
      assert names[..i] == names;
    }
  }

  /** The shift loop of remove_accepted_seat: later entries move one slot left, the last slot is dropped. */
  method ShiftOut(names: seq<string>, index: nat) returns (r: seq<string>)
    requires index < |names|
    ensures r == DropAt(names, index)
  {
    var data := names;
    var i := index + 1;
    while i < |names|
      invariant index + 1 <= i <= |names|
      invariant |data| == |names|
      invariant forall j :: 0 <= j < i - 1 ==> data[j] == DropAt(names, index)[j]
      invariant forall j :: i <= j < |names| ==> data[j] == names[j]
    {
      data := data[i - 1 := data[i]];
      i := i + 1;
    }
    r := data[..|names| - 1];
  }

  /** Reference definition: the list with every occurrence of `seat` filtered out. */
  function Without(names: seq<string>, seat: string): seq<string>
  {
    if names == [] then []
    else (if names[0] == seat then [] else [names[0]]) + Without(names[1..], seat)
  }

  /** On a duplicate-free list, removal is the stable filter: relative order of the rest is kept. */
  lemma {:induction false} RemoveIsStableFilter(names: seq<string>, seat: string)
    requires NoDuplicates(names)
    ensures Remove(names, seat).names == Without(names, seat)
  {
    if names == [] {
    } else {
      var rest := names[1..];
      assert NoDuplicates(rest) by {
        forall i, j | 0 <= i < j < |rest| ensures rest[i] != rest[j] {
          assert rest[i] == names[i + 1] && rest[j] == names[j + 1];
        }
      }
      if names[0] == seat {
        RemoveHead(names, seat);
      } else {
        RemoveIsStableFilter(rest, seat);
        RemoveCons(names, seat);
      }
    }
  }

  lemma {:induction false} RemoveHead(names: seq<string>, seat: string)
    requires NoDuplicates(names) && names != [] && names[0] == seat
    ensures Remove(names, seat).names == Without(names, seat)
  {
    var rest := names[1..];
    assert seat !in rest by {
      forall j | 0 <= j < |rest| ensures rest[j] != seat {
        assert rest[j] == names[j + 1];
      }
    }
    WithoutAbsent(rest, seat);
    assert Without(names, seat) == Without(rest, seat);
    assert IndexOf(names, seat) == 0;
    assert DropAt(names, 0) == rest;
  }

  lemma {:induction false} RemoveCons(names: seq<string>, seat: string)
    requires names != [] && names[0] != seat
    ensures Remove(names, seat).names == [names[0]] + Remove(names[1..], seat).names
    ensures Without(names, seat) == [names[0]] + Without(names[1..], seat)
  {
    var rest := names[1..];
    if seat in rest {
      var k := IndexOf(rest, seat);
      assert IndexOf(names, seat) == k + 1;
      DropAtCons(names, k);
    } else {
      assert IndexOf(names, seat) == -1;
      assert names == [names[0]] + rest;
    }
  }

  /** Filtering out an absent name changes nothing. */
  lemma {:induction false} WithoutAbsent(names: seq<string>, seat: string)
    requires seat !in names
    ensures Without(names, seat) == names
  {
    if names != [] {
      assert seat !in names[1..];
      WithoutAbsent(names[1..], seat);
    }
  }

  /** Removing a seat just accepted restores the list: remove undoes add. */
  lemma RemoveUndoesAdd(names: seq<string>, seat: string)
    requires seat !in names
    ensures Remove(Add(names, seat).names, seat) == Update(names, true)
  {
    var added := Add(names, seat).names;
    assert IndexOf(added, seat) == |names| by {
      assert added[..|names|] == names;
    }
    assert DropAt(added, |names|) == names;
  }

  /** Accepting a seat that was just removed from a duplicate-free list puts it back at the end. */
  lemma AddAfterRemove(names: seq<string>, seat: string)
    requires NoDuplicates(names) && seat in names
    ensures Add(Remove(names, seat).names, seat).names == Without(names, seat) + [seat]
  {
    RemoveIsStableFilter(names, seat);
  }
}
