/**
 The id array of a collection: zero-terminated, doubled when full, halved when at most half full.
 */
module IdLists {
  import opened Bytes
  import opened Lists
  import Wire

  class IdList {
    var idlist: array<uint32>
    var size: nat
    var capacity: nat

    /** The terminator stands in the last used slot, and at most half of the slots are unused. */
    ghost predicate Valid()
      reads this, idlist
    {
      && idlist.Length == capacity
      && 1 <= size <= capacity <= 2 * size
      && idlist[size - 1] == 0
    }

    /** The ids, without the terminator. */
    ghost function Ids(): seq<uint32>
      requires 1 <= size <= idlist.Length
      reads this, idlist
    {
      idlist[..size - 1]
    }

    constructor ()
      ensures Valid() && fresh(idlist) && Ids() == []
    {
      idlist := new uint32[1](_ => 0);
      size, capacity := 1, 1;
    }

    /** What an index access promises: a slot before the terminator. */
    predicate Has(index: nat)
      reads this`size
    {
      index + 1 < size
    }

    method SetIdlist(ids: seq<uint32>)
      requires 0 in ids
      modifies this
      ensures Valid() && fresh(idlist) && Ids() == Wire.UntilZero(ids) && capacity == size
    {
      var n := 0;
      while ids[n] != 0
        invariant 0 <= n < |ids| && 0 !in ids[..n] && 0 in ids[n..]
        decreases |ids| - n
      {
        n := n + 1;
      }
      UntilFirstZero(ids, n);
      n := n + 1;
      idlist := new uint32[n];
      for i := 0 to n
        invariant idlist.Length == n && fresh(idlist) && idlist[..i] == ids[..i]
      {
        idlist[i] := ids[i];
      }
      size := n;
      capacity := n;
      assert idlist[..n - 1] == ids[..n - 1];
    }

    method Resize(newsize: nat)
      requires size <= newsize && size <= idlist.Length
      modifies this`idlist, this`capacity
      ensures fresh(idlist) && idlist.Length == capacity == newsize
      ensures idlist[..size] == old(idlist[..size])
    {
      var newmem := new uint32[newsize];
      var l := idlist;
      forall i | 0 <= i < newsize && i < l.Length {
        newmem[i] := l[i];
      }
      idlist := newmem;
      capacity := newsize;
    }

    /** Shifts the slots from `index` up to and including the terminator. */
    method ShiftUp(index: nat)
      requires index < size < idlist.Length
      modifies idlist
      ensures forall k {:trigger idlist[k]} :: 0 <= k <= size && k != index ==>
        idlist[k] == if k < index then old(idlist[k]) else old(idlist[k - 1])
    {
      var i := size;
      while i > index
        invariant index <= i <= size
        invariant forall k :: 0 <= k < idlist.Length && !(i < k <= size) ==> idlist[k] == old(idlist[k])
        invariant forall k {:trigger idlist[k]} :: i < k <= size ==> idlist[k] == old(idlist[k - 1])
      {
        idlist[i] := idlist[i - 1];
        i := i - 1;
      }
    }

    method OpenSlot(index: nat, id: uint32)
      requires index < size < idlist.Length
      modifies idlist, this`size
      ensures size == old(size) + 1 && idlist[..size] == Inserted(old(idlist[..size]), index, id)
    {
      hide Inserted;
      ghost var was := idlist[..size];
      ShiftUp(index);
      idlist[index] := id;
      size := size + 1;
      InsertedSlots(was, index, id, idlist[..size]);
    }

    method ShiftDown(index: nat, end: nat)
      requires index <= end < idlist.Length
      modifies idlist
      ensures forall k :: 0 <= k < idlist.Length && !(index <= k < end) ==> idlist[k] == old(idlist[k])
      ensures forall k {:trigger idlist[k]} :: index <= k < end ==> idlist[k] == old(idlist[k + 1])
    {
      var i := index;
      while i < end
        invariant index <= i <= end
        invariant forall k :: 0 <= k < idlist.Length && !(index <= k < i) ==> idlist[k] == old(idlist[k])
        invariant forall k {:trigger idlist[k]} :: index <= k < i ==> idlist[k] == old(idlist[k + 1])
      {
        idlist[i] := idlist[i + 1];
        i := i + 1;
      }
    }

    method Insert(index: nat, id: uint32) returns (ok: bool)
      requires Valid()
      modifies this, idlist
      ensures Valid() && (idlist == old(idlist) || fresh(idlist))
      ensures ok <==> index <= |old(Ids())|
      ensures Ids() == if ok then Inserted(old(Ids()), index, id) else old(Ids())
    {
      if index >= size {
        return false;
      }
      hide Inserted;
      ghost var was := idlist[..size];
      if size == capacity {
        Resize(capacity * 2);
      }
      OpenSlot(index, id);
      ghost var now := idlist[..size];
      assert Ids() == now[..size - 1] && idlist[size - 1] == now[size - 1];
      assert was[..|was| - 1] == old(Ids());
      InsertedBeforeLast(was, index, id);
      return true;
    }

    method Append(id: uint32) returns (ok: bool)
      requires Valid()
      modifies this, idlist
      ensures Valid() && (idlist == old(idlist) || fresh(idlist))
      ensures ok && Ids() == old(Ids()) + [id]
    {
      ok := Insert(size - 1, id);
    }

    method Remove(index: nat) returns (ok: bool)
      requires Valid()
      modifies this, idlist
      ensures Valid() && (idlist == old(idlist) || fresh(idlist))
      ensures ok <==> index < |old(Ids())|
      ensures Ids() == if ok then Removed(old(Ids()), index) else old(Ids())
    {
      if index >= size - 1 {
        return false;
      }
      ghost var was := Ids();
      size := size - 1;
      ShiftDown(index, size);
      RemovedSlots(was, index, idlist[..size - 1]);
      assert idlist[size - 1] == 0;
      var half := capacity / 2;
      if size <= half {
        ghost var now := idlist[..size];
        Resize(half);
        assert idlist[size - 1] == now[size - 1] && idlist[..size - 1] == now[..size - 1];
      }
      return true;
    }

    method Move(index: nat, newindex: nat) returns (ok: bool)
      requires Valid()
      modifies idlist
      ensures Valid()
      ensures ok <==> index < |old(Ids())| && newindex < |old(Ids())|
      ensures Ids() == if ok then Moved(old(Ids()), index, newindex) else old(Ids())
    {
      hide Moved;
      if index >= size - 1 || newindex >= size - 1 {
        return false;
      }
      ghost var was := Ids();
      var tmp := idlist[index];
      if index < newindex {
        ShiftDown(index, newindex);
      } else if index > newindex {
        var i := index;
        while i > newindex
          invariant newindex <= i <= index
          invariant forall k :: 0 <= k < idlist.Length && !(i < k <= index) ==> idlist[k] == old(idlist[k])
          invariant forall k {:trigger idlist[k]} :: i < k <= index ==> idlist[k] == old(idlist[k - 1])
        {
          idlist[i] := idlist[i - 1];
          i := i - 1;
        }
      }
      idlist[newindex] := tmp;
      MovedSlots(was, index, newindex, Ids());
      return true;
    }

    method Clear()
      modifies this
      ensures Valid() && fresh(idlist) && Ids() == []
    {
      SetIdlist([0]);
    }

    method GetIndex(index: nat) returns (val: Option<uint32>)
      requires Valid()
      ensures val == if index < |Ids()| then Some(Ids()[index]) else None
    {
      if index >= size - 1 {
        return None;
      }
      return Some(idlist[index]);
    }

    method SetIndex(index: nat, val: uint32) returns (ok: bool)
      requires Valid()
      modifies idlist
      ensures Valid()
      ensures ok <==> index < |Ids()|
      ensures Ids() == if ok then old(Ids())[index := val] else old(Ids())
    {
      if index >= size - 1 {
        return false;
      }
      idlist[index] := val;
      return true;
    }
  }

  lemma {:induction false} UntilFirstZero(ids: seq<uint32>, n: nat)
    requires n < |ids| && ids[n] == 0 && 0 !in ids[..n]
    ensures Wire.UntilZero(ids) == ids[..n]
  {
    if n > 0 {
      assert ids[0] in ids[..n] && ids[1..][..n - 1] == ids[..n][1..];
      UntilFirstZero(ids[1..], n - 1);
    }
  }

  /** Inserting in front of the last element leaves the last element alone. */
  lemma InsertedBeforeLast(s: seq<uint32>, p: nat, id: uint32)
    requires p < |s|
    ensures var r := Inserted(s, p, id);
      |r| == |s| + 1 && r[|r| - 1] == s[|s| - 1] && r[..|r| - 1] == Inserted(s[..|s| - 1], p, id)
  {
  }
}
