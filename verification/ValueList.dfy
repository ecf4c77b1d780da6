/**
 xmmsv_list_t: a growing and shrinking array of values, updated in place, with registered
 iterators whose positions are adjusted by every edit.  The edits and what they do to a position
 are those of module Lists.
 */
module ValueLists {
  import opened Bytes
  import opened Lists
  import opened Values

  class ListIter {
    const parent: ValueList
    var position: int

    constructor (l: ValueList)
      ensures parent == l && position == 0
    {
      parent := l;
      position := 0;
    }

    /** What every function taking an iterator relies on: it is registered with its list. */
    ghost predicate Live()
      reads this, parent, parent.list, parent.iterators
    {
      parent.Valid() && this in parent.iterators
    }

    predicate OnElement()
      reads this, parent`size
    {
      position < parent.size && position >= 0
    }

    method Entry() returns (v: Option<Value>)
      requires Live()
      ensures v == if OnElement() then Some(parent.Contents()[position]) else None
    {
      if !OnElement() {
        return None;
      }
      return Some(parent.list[position]);
    }

    method First()
      requires Live()
      modifies this`position
      ensures position == 0 && Live()
    {
      position := 0;
    }

    method Last()
      requires Live()
      modifies this`position
      ensures Live()
      ensures position == if parent.size == 0 then 0 else parent.size - 1
    {
      if parent.size > 0 {
        position := parent.size - 1;
      } else {
        position := parent.size;
      }
    }

    /** Stops just past the last element. */
    method Next()
      requires Live()
      modifies this`position
      ensures Live()
      ensures position == if old(position) < parent.size then old(position) + 1 else parent.size
    {
      if position < parent.size {
        position := position + 1;
      }
    }

    /** Stops just before the first element. */
    method Prev()
      requires Live()
      modifies this`position
      ensures Live()
      ensures position == if old(position) >= 0 then old(position) - 1 else -1
    {
      if position >= 0 {
        position := position - 1;
      }
    }

    method Seek(pos: int) returns (ok: bool)
      requires Live()
      modifies this`position
      ensures Live()
      ensures match Absolute(pos, parent.size, true)
        case Some(p) => ok && position == p
        case None => !ok && position == old(position)
    {
      var p := Absolute(pos, parent.size, true);
      if p == None {
        return false;
      }
      position := p.value;
      return true;
    }

    /** Inserts where the iterator stands; one standing before the front inserts before the last element. */
    method Insert(v: Value) returns (ok: bool)
      requires Live()
      modifies parent`list, parent`capacity, parent`size, parent.list, parent.iterators`position
      ensures Live() && parent.Kept(old(parent.list))
      ensures match Absolute(old(position), old(parent.size), true)
        case Some(p) =>
          && (ok <==> parent.Admits(v))
          && (ok ==> parent.Contents() == Inserted(old(parent.Contents()), p, v))
          && (ok ==> forall it <- parent.iterators :: it.position == Follow(Insertion(p), old(it.position)))
        case None => !ok
      ensures !ok ==> parent.Contents() == old(parent.Contents())
      ensures !ok ==> forall it <- parent.iterators :: it.position == old(it.position)
    {
      ok := parent.Insert(position, v);
    }

    method Remove() returns (ok: bool)
      requires Live()
      modifies parent`list, parent`capacity, parent`size, parent.list, parent.iterators`position
      ensures Live() && parent.Kept(old(parent.list))
      ensures match Absolute(old(position), old(parent.size), false)
        case Some(p) =>
          && ok
          && parent.Contents() == Removed(old(parent.Contents()), p)
          && forall it <- parent.iterators :: it.position == Follow(Removal(p), old(it.position))
        case None =>
          && !ok
          && parent.Contents() == old(parent.Contents())
          && forall it <- parent.iterators :: it.position == old(it.position)
    {
      ok := parent.Remove(position);
    }
  }

  class ValueList {
    var list: array<Value>
    var size: nat
    var capacity: nat
    var restricted: bool
    var restricttype: uint32
    var iterators: seq<ListIter>

    /** Exact capacity, and registered iterators that stand in [-1, size]. */
    ghost predicate Valid()
      reads this, list, iterators
    {
      && list.Length == capacity
      && size <= capacity && IsCapacity(capacity, size)
      && Registered()
      && forall it <- iterators :: InRange(it.position, size)
    }

    ghost predicate Registered()
      reads this`iterators
    {
      && (forall it <- iterators :: it.parent == this)
      && forall a, b :: 0 <= a < b < |iterators| ==> iterators[a] != iterators[b]
    }

    /** The sequence the list denotes. */
    ghost function Contents(): seq<Value>
      requires size <= list.Length
      reads this, list
    {
      list[..size]
    }

    predicate Admits(v: Value)
      reads this`restricted, this`restricttype
    {
      restricted ==> TypeTag(v) == restricttype
    }

    /** The array is only ever replaced by a new one. */
    twostate predicate Kept(was: array<Value>)
      reads this
    {
      list == was || fresh(list)
    }

    predicate SameRestriction(r: bool, t: uint32)
      reads this`restricted, this`restricttype
    {
      restricted == r && restricttype == t
    }

    constructor ()
      ensures Valid() && fresh(list) && Contents() == [] && iterators == [] && !restricted
    {
      list := new Value[0];
      size, capacity, restricted, restricttype, iterators := 0, 0, false, 0, [];
    }

    /** A new iterator stands at the front and is registered first. */
    method GetIter() returns (it: ListIter)
      requires Valid()
      modifies this`iterators
      ensures Valid() && fresh(it) && it.position == 0
      ensures iterators == [it] + old(iterators)
    {
      it := new ListIter(this);
      iterators := [it] + iterators;
    }

    /** realloc: keeps what fits. */
    method Resize(newsize: nat)
      requires size <= newsize && size <= list.Length
      modifies this`list, this`capacity
      ensures fresh(list) && list.Length == capacity == newsize
      ensures Contents() == old(Contents())
    {
      var newmem := new Value[newsize];
      var l := list;
      forall i | 0 <= i < newsize && i < l.Length {
        newmem[i] := l[i];
      }
      list := newmem;
      capacity := newsize;
    }

    /** memmove inside the array, which copes with overlap. */
    method MoveSlots(to: nat, from: nat, count: nat)
      requires to + count <= list.Length && from + count <= list.Length
      modifies list
      ensures forall k {:trigger list[k]} :: 0 <= k < list.Length ==>
        list[k] == if to <= k < to + count then old(list[from + k - to]) else old(list[k])
    {
      var l := list;
      forall k | to <= k < to + count {
        l[k] := l[from + k - to];
      }
    }

    method MakeWay(p: nat)
      requires p <= size < list.Length
      modifies list
      ensures forall k {:trigger list[k]} :: 0 <= k <= size && k != p ==>
        list[k] == if k < p then old(list[k]) else old(list[k - 1])
    {
      if size > p {
        MoveSlots(p + 1, p, size - p);
      }
    }

    method OpenSlot(p: nat, v: Value)
      requires p <= size < list.Length
      modifies list, this`size
      ensures size == old(size) + 1 && Contents() == Inserted(old(Contents()), p, v)
    {
      hide Inserted;
      ghost var was := Contents();
      MakeWay(p);
      list[p] := v;
      size := size + 1;
      InsertedSlots(was, p, v, Contents());
    }

    method CloseSlot(p: nat)
      requires p < size <= list.Length
      modifies list, this`size
      ensures size == old(size) - 1 && Contents() == Removed(old(Contents()), p)
    {
      hide Removed;
      ghost var was := Contents();
      size := size - 1;
      if p < size {
        MoveSlots(p, p + 1, size - p);
      }
      RemovedSlots(was, p, Contents());
    }

    /** Takes element `i` out and puts it in at `j`; the elements between shift by one. */
    method Rotate(i: nat, j: nat)
      requires i < size <= list.Length && j < size
      modifies list
      ensures Contents() == Moved(old(Contents()), i, j)
    {
      hide Moved;
      var v := list[i];
      if i < j {
        MoveDown(i, j);
      } else {
        MoveUp(i, j);
      }
      list[j] := v;
      MovedSlots(old(Contents()), i, j, Contents());
    }

    method MoveDown(i: nat, j: nat)
      requires i < j < size <= list.Length
      modifies list
      ensures forall k {:trigger list[k]} :: 0 <= k < size && k != j ==> list[k] == MovedSlot(old(Contents()), i, j, k)
    {
      MoveSlots(i, i + 1, j - i);
    }

    method MoveUp(i: nat, j: nat)
      requires j <= i < size <= list.Length
      modifies list
      ensures forall k {:trigger list[k]} :: 0 <= k < size && k != j ==> list[k] == MovedSlot(old(Contents()), i, j, k)
    {
      MoveSlots(j + 1, j, i - j);
    }

    /** The loop over the registered iterators that ends every edit. */
    method Adjust(e: Edit)
      requires Registered()
      modifies iterators`position
      ensures forall it <- iterators :: it.position == Follow(e, old(it.position))
    {
      for n := 0 to |iterators|
        invariant forall k :: 0 <= k < n ==> iterators[k].position == Follow(e, old(iterators[k].position))
        invariant forall k :: n <= k < |iterators| ==> iterators[k].position == old(iterators[k].position)
      {
        var it := iterators[n];
        match e {
          case Insertion(p) =>
            if it.position > p {
              it.position := it.position + 1;
            }
          case Removal(p) =>
            if it.position > p {
              it.position := it.position - 1;
            }
          case Move(i, j) =>
            if i < j {
              if it.position >= i && it.position <= j {
                if it.position == i {
                  it.position := j;
                } else {
                  it.position := it.position - 1;
                }
              }
            } else {
              if it.position >= j && it.position <= i {
                if it.position == i {
                  it.position := j;
                } else {
                  it.position := it.position + 1;
                }
              }
            }
          case Clearing =>
            it.position := 0;
        }
      }
    }

    method Insert(pos: int, v: Value) returns (ok: bool)
      requires Valid()
      modifies this`list, this`capacity, this`size, list, iterators`position
      ensures Valid() && Kept(old(list))
      ensures match Absolute(pos, old(size), true)
        case Some(p) =>
          && (ok <==> Admits(v))
          && (ok ==> Contents() == Inserted(old(Contents()), p, v))
          && (ok ==> forall it <- iterators :: it.position == Follow(Insertion(p), old(it.position)))
        case None => !ok
      ensures !ok ==> Contents() == old(Contents())
      ensures !ok ==> forall it <- iterators :: it.position == old(it.position)
    {
      hide IsCapacity, Inserted;
      var p := Absolute(pos, size, true);
      if p == None {
        return false;
      }
      if restricted {
        if TypeTag(v) != restricttype {
          return false;
        }
      }
      GrownIsCapacity(capacity, size);
      CapacityHolds(capacity, size);
      if size == capacity {
        if capacity > 0 {
          Resize(2 * capacity);
        } else {
          Resize(1);
        }
      }
      OpenSlot(p.value, v);
      Adjust(Insertion(p.value));
      return true;
    }

    method Append(v: Value) returns (ok: bool)
      requires Valid()
      modifies this`list, this`capacity, this`size, list, iterators`position
      ensures Valid() && Kept(old(list))
      ensures ok <==> Admits(v)
      ensures Contents() == if ok then old(Contents()) + [v] else old(Contents())
      ensures forall it <- iterators :: it.position == old(it.position)
    {
      ok := Insert(size, v);
    }

    method Remove(pos: int) returns (ok: bool)
      requires Valid()
      modifies this`list, this`capacity, this`size, list, iterators`position
      ensures Valid() && Kept(old(list))
      ensures match Absolute(pos, old(size), false)
        case Some(p) =>
          && ok
          && Contents() == Removed(old(Contents()), p)
          && forall it <- iterators :: it.position == Follow(Removal(p), old(it.position))
        case None =>
          && !ok
          && Contents() == old(Contents())
          && forall it <- iterators :: it.position == old(it.position)
    {
      hide IsCapacity, Removed;
      var p := Absolute(pos, size, false);
      if p == None {
        return false;
      }
      ShrunkIsCapacity(capacity, size - 1);
      CapacityHolds(capacity, size);
      CloseSlot(p.value);
      var half := capacity / 2;
      if size <= half {
        Resize(half);
      }
      Adjust(Removal(p.value));
      return true;
    }

    /** Both positions count with the element still in its old place. */
    method MoveElement(oldPos: int, newPos: int) returns (ok: bool)
      requires Valid()
      modifies list, iterators`position
      ensures Valid()
      ensures match (Absolute(oldPos, size, false), Absolute(newPos, size, false))
        case (Some(i), Some(j)) =>
          && ok
          && Contents() == Moved(old(Contents()), i, j)
          && forall it <- iterators :: it.position == Follow(Move(i, j), old(it.position))
        case (_, _) =>
          && !ok
          && Contents() == old(Contents())
          && forall it <- iterators :: it.position == old(it.position)
    {
      hide IsCapacity, Moved;
      var i := Absolute(oldPos, size, false);
      if i == None {
        return false;
      }
      var j := Absolute(newPos, size, false);
      if j == None {
        return false;
      }
      Rotate(i.value, j.value);
      Adjust(Move(i.value, j.value));
      return true;
    }

    method Clear()
      requires Valid()
      modifies this`list, this`capacity, this`size, iterators`position
      ensures Valid() && Kept(old(list))
      ensures Contents() == []
      ensures forall it <- iterators :: it.position == Follow(Clearing, old(it.position))
    {
      list := new Value[0];
      size := 0;
      capacity := 0;
      Adjust(Clearing);
    }

    method Get(pos: int) returns (v: Option<Value>)
      requires Valid()
      ensures v == match Absolute(pos, size, false)
        case Some(p) => Some(Contents()[p])
        case None => None
    {
      var p := Absolute(pos, size, false);
      if p == None {
        return None;
      }
      return Some(list[p.value]);
    }

    /** Replaces one element; unlike insertion it does not look at the type restriction. */
    method Set(pos: int, v: Value) returns (ok: bool)
      requires Valid()
      modifies list
      ensures Valid()
      ensures match Absolute(pos, size, false)
        case Some(p) => ok && Contents() == old(Contents())[p := v]
        case None => !ok && Contents() == old(Contents())
    {
      var p := Absolute(pos, size, false);
      if p == None {
        return false;
      }
      list[p.value] := v;
      return true;
    }

    /** Restricts an unrestricted list whose elements all have the type; a failed scan leaves its iterator registered. */
    method RestrictType(tag: uint32) returns (ok: bool)
      requires Valid()
      modifies this`iterators, this`restricted, this`restricttype
      ensures Valid()
      ensures ok <==> !old(restricted) && forall k :: 0 <= k < size ==> TypeTag(Contents()[k]) == tag
      ensures ok ==> restricted && restricttype == tag
      ensures ok || old(restricted) ==> iterators == old(iterators)
      ensures !ok ==> SameRestriction(old(restricted), old(restricttype))
      ensures !ok && !old(restricted) ==> iterators != [] && iterators[1..] == old(iterators)
    {
      if restricted {
        return false;
      }
      var it := GetIter();
      while it.OnElement()
        invariant it.Live() && fresh(it) && it.parent == this && 0 <= it.position <= size
        invariant list == old(list) && size == old(size) && iterators == [it] + old(iterators)
        invariant !restricted && restricttype == old(restricttype)
        invariant forall k :: 0 <= k < it.position ==> TypeTag(list[k]) == tag
        decreases size - it.position
      {
        var v := it.Entry();
        if TypeTag(v.value) != tag {
          assert TypeTag(Contents()[it.position]) != tag;
          return false;
        }
        it.Next();
      }
      iterators := iterators[1..];
      restricted := true;
      restricttype := tag;
      return true;
    }
  }
}
