/**
 xmmsv_dict_t: a flat list [key, value, key, value, ...] sorted by key, searched by bisection and
 updated in place through list iterators.  It behaves as a map.
 */
module DictObjects {
  import opened Bytes
  import opened Lists
  import opened Values
  import opened ValueLists
  import Dicts
  import Utf8

  /** The flat list of the pairs. */
  ghost function Flat(ps: seq<Pair<Value>>): (s: seq<Value>)
    ensures |s| == 2 * |ps|
  {
    if ps == [] then [] else [Str(ps[0].key), ps[0].val] + Flat(ps[1..])
  }

  lemma {:induction false} FlatAt(ps: seq<Pair<Value>>, i: nat)
    requires i < |ps|
    ensures Flat(ps)[2 * i] == Str(ps[i].key) && Flat(ps)[2 * i + 1] == ps[i].val
  {
    if i > 0 {
      FlatAt(ps[1..], i - 1);
    }
  }

  lemma {:induction false} FlatConcat(ps: seq<Pair<Value>>, qs: seq<Pair<Value>>)
    ensures Flat(ps + qs) == Flat(ps) + Flat(qs)
  {
    if ps == [] {
      assert ps + qs == qs;
    } else {
      assert (ps + qs)[1..] == ps[1..] + qs;
      FlatConcat(ps[1..], qs);
    }
  }

  lemma FlatThree(a: seq<Pair<Value>>, p: Pair<Value>, b: seq<Pair<Value>>)
    ensures Flat(a + [p] + b) == Flat(a) + [Str(p.key), p.val] + Flat(b)
  {
    FlatConcat(a + [p], b);
    FlatConcat(a, [p]);
    assert [p][1..] == [];
    assert Flat([p]) == [Str(p.key), p.val];
  }

  lemma RegroupInsert(a: seq<Value>, b: seq<Value>, x: Value, y: Value, s: seq<Value>, t: seq<Value>)
    requires |a| < |s|
    requires s == Inserted(a + b, |a|, x) && t == Inserted(s, |a| + 1, y)
    ensures t == a + [x, y] + b
  {
    assert s[..|a| + 1] == a + [x] && s[|a| + 1..] == b;
  }

  lemma RegroupRemove(a: seq<Value>, b: seq<Value>, x: Value, y: Value, s: seq<Value>, t: seq<Value>)
    requires |a| < |s|
    requires s == Removed(a + [x, y] + b, |a|) && t == Removed(s, |a|)
    ensures t == a + b
  {
    assert s == a + [y] + b;
  }

  lemma RegroupReplace(a: seq<Value>, b: seq<Value>, x: Value, y: Value, z: Value, s: seq<Value>, t: seq<Value>)
    requires |a| < |s|
    requires s == Removed(a + [x, y] + b, |a| + 1) && t == Inserted(s, |a| + 1, z)
    ensures t == a + [x, z] + b
  {
    assert s == a + [x] + b;
    assert s[..|a| + 1] == a + [x] && s[|a| + 1..] == b;
  }

  /** A key and then its value, inserted at the slot of a new pair. */
  lemma FlatInsert(a: seq<Pair<Value>>, p: Pair<Value>, b: seq<Pair<Value>>, s: seq<Value>, t: seq<Value>)
    requires 2 * |a| < |s|
    requires s == Inserted(Flat(a + b), 2 * |a|, Str(p.key)) && t == Inserted(s, 2 * |a| + 1, p.val)
    ensures t == Flat(a + [p] + b)
  {
    hide Flat, Inserted;
    FlatConcat(a, b);
    FlatThree(a, p, b);
    RegroupInsert(Flat(a), Flat(b), Str(p.key), p.val, s, t);
  }

  /** Removing twice at the slot of a pair removes the pair. */
  lemma FlatRemove(a: seq<Pair<Value>>, p: Pair<Value>, b: seq<Pair<Value>>, s: seq<Value>, t: seq<Value>)
    requires 2 * |a| < |s|
    requires s == Removed(Flat(a + [p] + b), 2 * |a|) && t == Removed(s, 2 * |a|)
    ensures t == Flat(a + b)
  {
    hide Flat, Removed;
    FlatConcat(a, b);
    FlatThree(a, p, b);
    RegroupRemove(Flat(a), Flat(b), Str(p.key), p.val, s, t);
  }

  /** Removing the value and inserting another in its place replaces it. */
  lemma FlatReplace(a: seq<Pair<Value>>, p: Pair<Value>, b: seq<Pair<Value>>, v: Value, s: seq<Value>, t: seq<Value>)
    requires 2 * |a| < |s|
    requires s == Removed(Flat(a + [p] + b), 2 * |a| + 1) && t == Inserted(s, 2 * |a| + 1, v)
    ensures t == Flat(a + [Dicts.Pair(p.key, v)] + b)
  {
    hide Flat, Removed, Inserted;
    FlatThree(a, p, b);
    FlatThree(a, Dicts.Pair(p.key, v), b);
    RegroupReplace(Flat(a), Flat(b), Str(p.key), p.val, v, s, t);
  }

  /** The value at the iterator is taken out and another put in its place. */
  method ReplaceEntry(lit: ListIter, v: Value)
    requires lit.Live() && lit.OnElement() && !lit.parent.restricted
    modifies lit.parent`list, lit.parent`capacity, lit.parent`size, lit.parent.list, lit.parent.iterators`position
    ensures lit.Live() && lit.parent.Kept(old(lit.parent.list))
    ensures var q := old(lit.position);
      var s := Removed(old(lit.parent.Contents()), q);
      q <= |s| && lit.parent.Contents() == Inserted(s, q, v)
  {
    hide IsCapacity;
    var _ := lit.Remove();
    var _ := lit.Insert(v);
  }

  /** A key and a value, inserted one after the other at the iterator. */
  method InsertPair(lit: ListIter, k: Value, v: Value)
    requires lit.Live() && 0 <= lit.position <= lit.parent.size && !lit.parent.restricted
    modifies lit.parent`list, lit.parent`capacity, lit.parent`size, lit.parent.list, lit.parent.iterators`position
    ensures lit.Live() && lit.parent.Kept(old(lit.parent.list))
    ensures var q := old(lit.position);
      var s := Inserted(old(lit.parent.Contents()), q, k);
      q < |s| && lit.parent.Contents() == Inserted(s, q + 1, v)
  {
    hide IsCapacity;
    var _ := lit.Insert(k);
    lit.Next();
    var _ := lit.Insert(v);
  }

  method RemovePair(lit: ListIter) returns (ok: bool)
    requires lit.Live() && 0 <= lit.position < lit.parent.size - 1
    modifies lit.parent`list, lit.parent`capacity, lit.parent`size, lit.parent.list, lit.parent.iterators`position
    ensures lit.Live() && lit.parent.Kept(old(lit.parent.list))
    ensures var q := old(lit.position);
      var s := Removed(old(lit.parent.Contents()), q);
      ok && q < |s| && lit.parent.Contents() == Removed(s, q)
  {
    hide IsCapacity;
    ok := lit.Remove();
    if ok {
      ok := lit.Remove();
    }
  }

  class DictIter {
    const lit: ListIter
    const parent: DictObject

    constructor (d: DictObject, l: ListIter)
      ensures lit == l && parent == d
    {
      lit := l;
      parent := d;
    }

    ghost predicate Live()
      reads this, parent, parent.flat, parent.flat.list, parent.flat.iterators, lit
    {
      parent.Valid() && lit.parent == parent.flat && lit in parent.flat.iterators
    }

    /**
     Bisection over the pairs.  Leaves the iterator at the slot of the key: on the pair when the
     key is there, otherwise where it would have to go.
     */
    method Find(key: Text) returns (found: bool)
      requires Live()
      modifies lit`position
      ensures Live()
      ensures found <==> key in parent.View()
      ensures found <==> Dicts.Found(parent.pairs, key)
      ensures lit.position == 2 * Dicts.Slot(parent.pairs, key)
    {
      hide Flat, IsCapacity, Dicts.StrCmp, Dicts.Sorted, Dicts.ToMap, Dicts.Slot, Dicts.Found, Utf8.Valid;
      ghost var ps := parent.pairs;
      var dictSize := parent.flat.size / 2;
      if dictSize == 0 {
        var _ := lit.Seek(0);
        parent.MissedAt(key, 0);
        return false;
      }
      var left, right, cmp := 0, dictSize - 1, 0;
      while left <= right
        invariant 0 <= left <= right + 1 <= dictSize
        invariant Live()
        invariant forall i :: 0 <= i < left ==> Dicts.Less(ps[i].key, key)
        invariant forall i :: right < i < |ps| ==> Dicts.Less(key, ps[i].key)
        invariant left <= right || (cmp < 0 && lit.position == 2 * (left - 1)) || (cmp > 0 && lit.position == 2 * left)
      {
        var mid := left + (right - left) / 2;
        var _ := lit.Seek(mid * 2);
        var v := lit.Entry();
        FlatAt(ps, mid);
        cmp := Dicts.StrCmp(v.value.s, key);
        if cmp == 0 {
          parent.FoundAt(key, mid);
          return true;
        }
        parent.Splits(key, mid);
        if cmp < 0 {
          left := mid + 1;
        } else {
          right := mid - 1;
        }
      }
      parent.MissedAt(key, left);
      if cmp < 0 {
        lit.Next();
        lit.Next();
      }
      return false;
    }

    /** The pair the iterator stands on; the position is moved to the value and put back. */
    method Entry() returns (p: Option<Pair<Value>>)
      requires Live() && (lit.position % 2 == 0 || lit.position == -1)
      modifies lit`position
      ensures Live() && lit.position == old(lit.position)
      ensures p == if lit.OnElement() then Some(parent.pairs[lit.position / 2]) else None
    {
      hide Flat, IsCapacity, Dicts.Sorted, Utf8.Valid;
      if !lit.OnElement() {
        return None;
      }
      var orig := lit.position;
      FlatAt(parent.pairs, orig / 2);
      var k := lit.Entry();
      lit.Next();
      var v := lit.Entry();
      lit.position := orig;
      return Some(Dicts.Pair(k.value.s, v.value));
    }

    method First()
      requires Live()
      modifies lit`position
      ensures Live() && lit.position == 0
    {
      lit.First();
    }

    /** Skips a pair. */
    method Next()
      requires Live()
      modifies lit`position
      ensures Live()
      ensures 0 <= old(lit.position) && old(lit.position) % 2 == 0 ==>
        lit.position == if old(lit.OnElement()) then old(lit.position) + 2 else old(lit.position)
    {
      lit.Next();
      lit.Next();
    }

    /** Replaces the value of the pair the iterator stands on. */
    method Set(v: Value) returns (ok: bool)
      requires Live() && lit.position % 2 == 0
      modifies parent`pairs, lit`position
      modifies parent.flat`list, parent.flat`capacity, parent.flat`size, parent.flat.list, parent.flat.iterators`position
      ensures Live() && parent.flat.Kept(old(parent.flat.list))
      ensures lit.position == old(lit.position)
      ensures ok <==> old(lit.OnElement())
      ensures !ok ==> parent.pairs == old(parent.pairs)
      ensures ok ==> var i := lit.position / 2;
        parent.pairs == old(parent.pairs)[i := Dicts.Pair(old(parent.pairs)[i].key, v)]
    {
      hide Flat, IsCapacity, Inserted, Removed, Dicts.Sorted, Utf8.Valid;
      if !lit.OnElement() {
        return false;
      }
      ghost var ps, i := parent.pairs, lit.position / 2;
      ghost var a, b := ps[..i], ps[i + 1..];
      assert ps == a + [ps[i]] + b;
      var orig := lit.position;
      lit.Next();
      ReplaceEntry(lit, v);
      ok := true;
      lit.position := orig;
      FlatReplace(a, ps[i], b, v, Removed(Flat(ps), orig + 1), parent.flat.Contents());
      parent.Rekeyed(i, v);
      parent.pairs := a + [Dicts.Pair(ps[i].key, v)] + b;
    }
  }

  class DictObject {
    const flat: ValueList
    ghost var pairs: seq<Pair<Value>>

    ghost predicate Valid()
      reads this, flat, flat.list, flat.iterators
    {
      && flat.Valid()
      && !flat.restricted
      && flat.Contents() == Flat(pairs)
      && Dicts.Sorted(pairs)
      && forall i :: 0 <= i < |pairs| ==> Utf8.Valid(pairs[i].key)
    }

    /** The map the dictionary denotes. */
    ghost function View(): map<Text, Value>
      reads this
    {
      Dicts.ToMap(pairs)
    }

    lemma FoundAt(key: Text, i: nat)
      requires Dicts.Sorted(pairs) && i < |pairs| && Dicts.StrCmp(pairs[i].key, key) == 0
      ensures Dicts.Found(pairs, key) && Dicts.Slot(pairs, key) == i
      ensures key in View()
    {
      Dicts.CmpAntisymmetric(pairs[i].key, key);
      Dicts.SlotIs(pairs, key, i);
      Dicts.MapKeys(pairs, key);
    }

    lemma MissedAt(key: Text, i: nat)
      requires i <= |pairs|
      requires forall j :: 0 <= j < i ==> Dicts.Less(pairs[j].key, key)
      requires forall j :: i <= j < |pairs| ==> Dicts.Less(key, pairs[j].key)
      ensures !Dicts.Found(pairs, key) && Dicts.Slot(pairs, key) == i
      ensures key !in View()
    {
      Dicts.CmpAntisymmetric(key, key);
      Dicts.MapKeys(pairs, key);
      if i < |pairs| { Dicts.CmpAntisymmetric(pairs[i].key, key); }
      Dicts.SlotIs(pairs, key, i);
    }

    /** A key that is not the middle one is on one side of it. */
    lemma Splits(key: Text, mid: nat)
      requires Dicts.Sorted(pairs) && mid < |pairs|
      ensures Dicts.StrCmp(pairs[mid].key, key) < 0 ==> forall i :: 0 <= i <= mid ==> Dicts.Less(pairs[i].key, key)
      ensures Dicts.StrCmp(pairs[mid].key, key) > 0 ==> forall i :: mid <= i < |pairs| ==> Dicts.Less(key, pairs[i].key)
    {
      Dicts.CmpAntisymmetric(key, pairs[mid].key);
      forall i | 0 <= i < |pairs|
        ensures Dicts.StrCmp(pairs[mid].key, key) < 0 && i <= mid ==> Dicts.Less(pairs[i].key, key)
        ensures Dicts.StrCmp(pairs[mid].key, key) > 0 && i >= mid ==> Dicts.Less(key, pairs[i].key)
      {
        if i < mid && Dicts.Less(pairs[mid].key, key) {
          Dicts.LessTransitive(pairs[i].key, pairs[mid].key, key);
        }
        if i > mid && Dicts.Less(key, pairs[mid].key) {
          Dicts.LessTransitive(key, pairs[mid].key, pairs[i].key);
        }
      }
    }

    /** Giving a pair another value keeps the order. */
    lemma Rekeyed(i: nat, v: Value)
      requires Dicts.Sorted(pairs) && i < |pairs|
      ensures var r := pairs[..i] + [Dicts.Pair(pairs[i].key, v)] + pairs[i + 1..];
        r == pairs[i := Dicts.Pair(pairs[i].key, v)] && Dicts.Sorted(r)
    {
    }

    constructor ()
      ensures Valid() && fresh(flat) && fresh(flat.list) && flat.iterators == [] && View() == map[]
    {
      flat := new ValueList();
      pairs := [];
    }

    /** The iterator each operation starts with.  Its list iterator is never taken off the flat list. */
    method GetIter() returns (it: DictIter)
      requires Valid()
      modifies flat`iterators
      ensures Valid() && fresh(it) && fresh(it.lit) && it.parent == this && it.Live()
      ensures it.lit.position == 0 && flat.iterators == [it.lit] + old(flat.iterators)
    {
      var l := flat.GetIter();
      it := new DictIter(this, l);
    }

    method Get(key: Text) returns (v: Option<Value>)
      requires Valid()
      modifies flat`iterators
      ensures Valid()
      ensures v == if key in View() then Some(View()[key]) else None
    {
      hide Dicts.ToMap, Dicts.Lookup, Dicts.Slot, Dicts.Sorted, Flat, IsCapacity, Utf8.Valid;
      var it := GetIter();
      var found := it.Find(key);
      Dicts.RemoveAtSlot(pairs, key);
      Dicts.LookupIsMap(pairs, key);
      if !found {
        return None;
      }
      var p := it.Entry();
      return Some(p.value.val);
    }

    /** Replaces the value of a key, or inserts the key; a new key that is not UTF-8 is refused. */
    method Set(key: Text, v: Value) returns (ok: bool)
      requires Valid()
      modifies this`pairs, flat`iterators
      modifies flat`list, flat`capacity, flat`size, flat.list, flat.iterators`position
      ensures Valid() && flat.Kept(old(flat.list))
      ensures ok <==> Utf8.Valid(key)
      ensures View() == if ok then old(View())[key := v] else old(View())
    {
      hide Dicts.ToMap, Dicts.Lookup, Dicts.Slot, Dicts.Sorted, Flat, IsCapacity, Utf8.Valid, Inserted, Removed;
      var it := GetIter();
      var found := it.Find(key);
      ghost var i := Dicts.Slot(pairs, key);
      Dicts.SetAtSlot(pairs, key, v);
      Dicts.SetIsMapUpdate(pairs, key, v);
      if found {
        ghost var ps := pairs;
        assert Utf8.Valid(ps[i].key) && ps[i].key == key;
        ok := it.Set(v);
        assert ps[i := Dicts.Pair(key, v)] == ps[..i] + [Dicts.Pair(key, v)] + ps[i + 1..];
      } else {
        ok := InsertNew(it, key, v);
      }
    }

    /** The other half of Set: a string value for the key, then the value, at the slot. */
    method InsertNew(it: DictIter, key: Text, v: Value) returns (ok: bool)
      requires it.parent == this && it.Live()
      requires !Dicts.Found(pairs, key) && it.lit.position == 2 * Dicts.Slot(pairs, key)
      modifies this`pairs
      modifies flat`list, flat`capacity, flat`size, flat.list, flat.iterators`position
      ensures Valid() && flat.Kept(old(flat.list))
      ensures ok <==> Utf8.Valid(key)
      ensures pairs == if ok then Dicts.Set(old(pairs), key, v) else old(pairs)
    {
      hide Dicts.ToMap, Dicts.Slot, Dicts.Sorted, Flat, IsCapacity, Utf8.Valid, Inserted, Removed;
      var k := NewString(key);
      if k == None {
        return false;
      }
      ghost var ps, i := pairs, Dicts.Slot(pairs, key);
      assert ps == ps[..i] + ps[i..];
      InsertPair(it.lit, k.value, v);
      FlatInsert(ps[..i], Dicts.Pair(key, v), ps[i..], Inserted(Flat(ps), 2 * i, k.value), flat.Contents());
      Dicts.SetAtSlot(ps, key, v);
      Dicts.SetIsMapUpdate(ps, key, v);
      pairs := Dicts.Set(ps, key, v);
      return true;
    }

    method Remove(key: Text) returns (ok: bool)
      requires Valid()
      modifies this`pairs, flat`iterators
      modifies flat`list, flat`capacity, flat`size, flat.list, flat.iterators`position
      ensures Valid() && flat.Kept(old(flat.list))
      ensures ok <==> key in old(View())
      ensures View() == old(View()) - {key}
    {
      hide Dicts.ToMap, Dicts.Lookup, Dicts.Slot, Dicts.Sorted, Flat, IsCapacity, Utf8.Valid, Inserted, Removed;
      var it := GetIter();
      var found := it.Find(key);
      Dicts.RemoveIsMapRemoval(pairs, key);
      if !found {
        return false;
      }
      ok := RemoveAt(it, key);
    }

    /** The other half of Remove: two list removals at the slot. */
    method RemoveAt(it: DictIter, key: Text) returns (ok: bool)
      requires it.parent == this && it.Live()
      requires Dicts.Found(pairs, key) && it.lit.position == 2 * Dicts.Slot(pairs, key)
      modifies this`pairs
      modifies flat`list, flat`capacity, flat`size, flat.list, flat.iterators`position
      ensures Valid() && flat.Kept(old(flat.list))
      ensures ok && pairs == Dicts.Remove(old(pairs), key)
    {
      hide Dicts.ToMap, Dicts.Lookup, Dicts.Slot, Dicts.Sorted, Flat, IsCapacity, Utf8.Valid, Removed;
      ghost var ps, i := pairs, Dicts.Slot(pairs, key);
      ghost var a, b := ps[..i], ps[i + 1..];
      assert ps == a + [ps[i]] + b;
      ok := RemovePair(it.lit);
      FlatRemove(a, ps[i], b, Removed(Flat(ps), 2 * i), flat.Contents());
      Dicts.RemoveAtSlot(ps, key);
      Dicts.RemoveIsMapRemoval(ps, key);
      pairs := Dicts.Remove(ps, key);
    }

    method Clear()
      requires Valid()
      modifies this`pairs
      modifies flat`list, flat`capacity, flat`size, flat.iterators`position
      ensures Valid() && flat.Kept(old(flat.list))
      ensures View() == map[]
    {
      flat.Clear();
      pairs := [];
    }

    method GetSize() returns (n: nat)
      requires Valid()
      ensures n == |View()|
    {
      hide Dicts.ToMap, Flat, IsCapacity;
      Dicts.SizeIsMapSize(pairs);
      n := flat.size / 2;
    }

    method HasKey(key: Text) returns (has: bool)
      requires Valid()
      modifies flat`iterators
      ensures Valid()
      ensures has <==> key in View()
    {
      var v := Get(key);
      has := v.Some?;
    }

    /** The pairs in the order in which a callback sees them: each once, keys increasing. */
    method Foreach() returns (seen: seq<Pair<Value>>)
      requires Valid()
      modifies flat`iterators
      ensures Valid()
      ensures Dicts.Sorted(seen) && Dicts.ToMap(seen) == View() && |seen| == |View()|
    {
      hide Dicts.ToMap, Dicts.Sorted, Flat, IsCapacity, Utf8.Valid;
      var it := GetIter();
      seen := [];
      while it.lit.OnElement()
        invariant it.Live() && it.parent == this && fresh(it.lit)
        invariant it.lit.position == 2 * |seen| && seen <= pairs
        decreases |pairs| - |seen|
      {
        var p := it.Entry();
        seen := seen + [p.value];
        it.Next();
      }
      assert |seen| == |pairs| && seen == pairs;
      Dicts.SizeIsMapSize(pairs);
    }
  }
}
