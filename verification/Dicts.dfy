/**
 strcmp order, and the dictionary as an association list sorted by it.  This is the value a
 dict denotes; DictObject.dfy ties the flat list that the library updates in place to it.
 */
module Dicts {
  import opened Bytes

  datatype Pair<+V> = Pair(key: Text, val: V)

  /** strcmp: compares as unsigned bytes, a proper prefix comes first. */
  function StrCmp(a: Text, b: Text): int {
    if a == [] && b == [] then 0
    else if a == [] then -1
    else if b == [] then 1
    else if a[0] != b[0] then (if a[0] < b[0] then -1 else 1)
    else StrCmp(a[1..], b[1..])
  }

  predicate Less(a: Text, b: Text) { StrCmp(a, b) < 0 }

  lemma {:induction false} CmpAntisymmetric(a: Text, b: Text)
    ensures StrCmp(a, b) == 0 <==> a == b
    ensures StrCmp(a, b) < 0 <==> StrCmp(b, a) > 0
  {
    if a != [] && b != [] && a[0] == b[0] {
      CmpAntisymmetric(a[1..], b[1..]);
      assert a == [a[0]] + a[1..] && b == [b[0]] + b[1..];
    }
  }

  /** Behind what both start with, one string ends first or has the smaller byte. */
  predicate Splits(a: Text, b: Text, i: nat) {
    && i <= |a| && i < |b| && a[..i] == b[..i]
    && (i == |a| || a[i] < b[i])
  }

  /** The order is the lexicographic one, on unsigned bytes. */
  lemma {:induction false} LessIsLexicographic(a: Text, b: Text)
    ensures Less(a, b) <==> exists i: nat :: Splits(a, b, i)
  {
    if a == [] || b == [] || a[0] != b[0] {
      if Less(a, b) { assert Splits(a, b, 0); }
      if i: nat :| Splits(a, b, i) && i > 0 { assert a[..i][0] == b[..i][0]; }
    } else {
      var c, d := a[1..], b[1..];
      LessIsLexicographic(c, d);
      if i: nat :| Splits(c, d, i) {
        assert a[..i + 1] == [a[0]] + c[..i] && b[..i + 1] == [b[0]] + d[..i];
        assert Splits(a, b, i + 1);
      }
      if i: nat :| Splits(a, b, i) {
        assert i > 0;
        assert c[..i - 1] == a[..i][1..] && d[..i - 1] == b[..i][1..];
        assert Splits(c, d, i - 1);
      }
    }
  }

  lemma {:induction false} LessTransitive(a: Text, b: Text, c: Text)
    requires Less(a, b) && Less(b, c)
    ensures Less(a, c)
  {
    if a != [] && c != [] && a[0] == b[0] == c[0] {
      LessTransitive(a[1..], b[1..], c[1..]);
    }
  }

  ghost predicate Sorted<V>(ps: seq<Pair<V>>) {
    forall i, j :: 0 <= i < j < |ps| ==> Less(ps[i].key, ps[j].key)
  }

  /** xmmsv_dict_set on values: replace the pair, or insert one at the slot that keeps the order. */
  function Set<V>(ps: seq<Pair<V>>, k: Text, v: V): (r: seq<Pair<V>>)
    ensures forall p :: p in r ==> p == Pair(k, v) || p in ps
  {
    if ps == [] then [Pair(k, v)]
    else if StrCmp(ps[0].key, k) == 0 then [Pair(k, v)] + ps[1..]
    else if StrCmp(ps[0].key, k) < 0 then [ps[0]] + Set(ps[1..], k, v)
    else [Pair(k, v)] + ps
  }

  function Remove<V>(ps: seq<Pair<V>>, k: Text): (r: seq<Pair<V>>)
    ensures forall p :: p in r ==> p in ps
  {
    if ps == [] then []
    else if StrCmp(ps[0].key, k) == 0 then ps[1..]
    else [ps[0]] + Remove(ps[1..], k)
  }

  function Lookup<V>(ps: seq<Pair<V>>, k: Text): Option<V> {
    if ps == [] then None
    else if StrCmp(ps[0].key, k) == 0 then Some(ps[0].val)
    else Lookup(ps[1..], k)
  }

  ghost function ToMap<V>(ps: seq<Pair<V>>): map<Text, V> {
    if ps == [] then map[] else ToMap(ps[1..])[ps[0].key := ps[0].val]
  }

  lemma {:induction false} MapKeys<V>(ps: seq<Pair<V>>, k: Text)
    ensures k in ToMap(ps) <==> exists i :: 0 <= i < |ps| && ps[i].key == k
  {
    if ps != [] {
      MapKeys(ps[1..], k);
      if i :| 0 <= i < |ps[1..]| && ps[1..][i].key == k {
        assert ps[i + 1].key == k;
      }
      if i :| 0 <= i < |ps| && ps[i].key == k && i > 0 {
        assert ps[1..][i - 1].key == k;
      }
    }
  }

  lemma {:induction false} LookupIsMap<V>(ps: seq<Pair<V>>, k: Text)
    ensures Lookup(ps, k) == if k in ToMap(ps) then Some(ToMap(ps)[k]) else None
  {
    if ps != [] {
      CmpAntisymmetric(ps[0].key, k);
      LookupIsMap(ps[1..], k);
    }
  }

  /** Every key of the tail is above the head's. */
  lemma HeadBelow<V>(ps: seq<Pair<V>>, k: Text)
    requires Sorted(ps) && ps != [] && (k == ps[0].key || Less(k, ps[0].key))
    ensures k !in ToMap(ps[1..])
  {
    MapKeys(ps[1..], k);
    CmpAntisymmetric(k, k);
    if i :| 0 <= i < |ps[1..]| && ps[1..][i].key == k {
      assert ps[i + 1].key == k && Less(ps[0].key, k);
      if k != ps[0].key {
        LessTransitive(k, ps[0].key, k);
      }
    }
  }

  /** dict_set is map update, and keeps the keys strictly increasing. */
  lemma {:induction false} SetIsMapUpdate<V>(ps: seq<Pair<V>>, k: Text, v: V)
    requires Sorted(ps)
    ensures Sorted(Set(ps, k, v))
    ensures ToMap(Set(ps, k, v)) == ToMap(ps)[k := v]
  {
    hide StrCmp;
    if ps == [] {
    } else {
      var c := StrCmp(ps[0].key, k);
      CmpAntisymmetric(ps[0].key, k);
      if c == 0 {
        assert Set(ps, k, v)[1..] == ps[1..];
      } else if c < 0 {
        var r := Set(ps[1..], k, v);
        SetIsMapUpdate(ps[1..], k, v);
        assert Set(ps, k, v)[1..] == r;
        forall j | 0 <= j < |r| ensures Less(ps[0].key, r[j].key) {
          assert r[j] in r;
        }
      } else {
        var r := [Pair(k, v)] + ps;
        assert r[1..] == ps;
        CmpAntisymmetric(k, ps[0].key);
        forall j | 0 <= j < |ps| ensures Less(k, ps[j].key) {
          if j > 0 { LessTransitive(k, ps[0].key, ps[j].key); }
        }
      }
    }
  }

  /** dict_remove is map removal, and keeps the keys strictly increasing. */
  lemma {:induction false} RemoveIsMapRemoval<V>(ps: seq<Pair<V>>, k: Text)
    requires Sorted(ps)
    ensures Sorted(Remove(ps, k))
    ensures ToMap(Remove(ps, k)) == ToMap(ps) - {k}
  {
    hide StrCmp;
    if ps == [] {
    } else {
      CmpAntisymmetric(ps[0].key, k);
      if ps[0].key == k {
        HeadBelow(ps, k);
      } else {
        var r := Remove(ps[1..], k);
        RemoveIsMapRemoval(ps[1..], k);
        assert Remove(ps, k)[1..] == r;
        forall j | 0 <= j < |r| ensures Less(ps[0].key, r[j].key) {
          assert r[j] in r && r[j] in ps[1..];
        }
      }
    }
  }

  /** The size of the list is the size of the map: no key occurs twice. */
  lemma {:induction false} SizeIsMapSize<V>(ps: seq<Pair<V>>)
    requires Sorted(ps)
    ensures |ToMap(ps)| == |ps|
  {
    if ps != [] {
      SizeIsMapSize(ps[1..]);
      HeadBelow(ps, ps[0].key);
    }
  }

  /** Setting a key above all others appends. */
  lemma {:induction false} SetAppends<V>(ps: seq<Pair<V>>, k: Text, v: V)
    requires forall i :: 0 <= i < |ps| ==> Less(ps[i].key, k)
    ensures Set(ps, k, v) == ps + [Pair(k, v)]
  {
    if ps != [] {
      assert Less(ps[0].key, k);
      SetAppends(ps[1..], k, v);
    }
  }

  /** A sorted list is determined by its map: the representation is canonical. */
  lemma {:induction false} SortedCanonical<V>(ps: seq<Pair<V>>, qs: seq<Pair<V>>)
    requires Sorted(ps) && Sorted(qs) && ToMap(ps) == ToMap(qs)
    ensures ps == qs
  {
    hide StrCmp;
    SizeIsMapSize(ps);
    SizeIsMapSize(qs);
    if ps != [] {
      var p, q := ps[0].key, qs[0].key;
      assert p in ToMap(ps) && q in ToMap(qs);
      CmpAntisymmetric(p, q);
      CmpAntisymmetric(q, p);
      if Less(p, q) {
        HeadBelow(qs, p);
        assert false;
      }
      if Less(q, p) {
        HeadBelow(ps, q);
        assert false;
      }
      HeadBelow(ps, p);
      HeadBelow(qs, p);
      assert ToMap(ps[1..]) == ToMap(ps) - {p} == ToMap(qs[1..]);
      SortedCanonical(ps[1..], qs[1..]);
      assert ps == [ps[0]] + ps[1..] && qs == [qs[0]] + qs[1..];
    }
  }

  /** How many keys are below `k`: the one slot where `k` is, or where it keeps the order. */
  function Slot<V>(ps: seq<Pair<V>>, k: Text): (i: nat)
    ensures i <= |ps|
  {
    if ps == [] || !Less(ps[0].key, k) then 0 else 1 + Slot(ps[1..], k)
  }

  predicate Found<V>(ps: seq<Pair<V>>, k: Text) {
    var i := Slot(ps, k);
    i < |ps| && ps[i].key == k
  }

  lemma {:induction false} SlotIs<V>(ps: seq<Pair<V>>, k: Text, i: nat)
    requires i <= |ps|
    requires forall j :: 0 <= j < i ==> Less(ps[j].key, k)
    requires i < |ps| ==> !Less(ps[i].key, k)
    ensures Slot(ps, k) == i
  {
    if i > 0 {
      assert Less(ps[0].key, k);
      SlotIs(ps[1..], k, i - 1);
    }
  }

  /** What the recursive operations do, in terms of the slot. */
  lemma {:induction false} SetAtSlot<V>(ps: seq<Pair<V>>, k: Text, v: V)
    ensures var i := Slot(ps, k);
      Set(ps, k, v) == ps[..i] + [Pair(k, v)] + ps[if Found(ps, k) then i + 1 else i..]
  {
    hide StrCmp;
    if ps != [] {
      CmpAntisymmetric(ps[0].key, k);
      if Less(ps[0].key, k) {
        var i := Slot(ps[1..], k);
        SetAtSlot(ps[1..], k, v);
        assert ps[..i + 1] == [ps[0]] + ps[1..][..i];
      }
    }
  }

  lemma {:induction false} RemoveMisses<V>(ps: seq<Pair<V>>, k: Text)
    requires forall i :: 0 <= i < |ps| ==> ps[i].key != k
    ensures Remove(ps, k) == ps && Lookup(ps, k) == None
  {
    hide StrCmp;
    if ps != [] {
      CmpAntisymmetric(ps[0].key, k);
      RemoveMisses(ps[1..], k);
      assert ps == [ps[0]] + ps[1..];
    }
  }

  lemma {:induction false} RemoveHits<V>(ps: seq<Pair<V>>, k: Text, i: nat)
    requires i < |ps| && ps[i].key == k
    requires forall j :: 0 <= j < i ==> ps[j].key != k
    ensures Remove(ps, k) == ps[..i] + ps[i + 1..] && Lookup(ps, k) == Some(ps[i].val)
  {
    hide StrCmp;
    CmpAntisymmetric(ps[0].key, k);
    if i > 0 {
      RemoveHits(ps[1..], k, i - 1);
      assert ps[..i] == [ps[0]] + ps[1..][..i - 1];
    }
  }

  lemma {:induction false} BelowSlot<V>(ps: seq<Pair<V>>, k: Text)
    ensures forall j :: 0 <= j < Slot(ps, k) ==> Less(ps[j].key, k)
    ensures Slot(ps, k) < |ps| ==> !Less(ps[Slot(ps, k)].key, k)
  {
    if ps != [] {
      BelowSlot(ps[1..], k);
    }
  }

  /** Being found by slot is being there at all. */
  lemma FoundIsKey<V>(ps: seq<Pair<V>>, k: Text)
    requires Sorted(ps)
    ensures Found(ps, k) <==> exists i :: 0 <= i < |ps| && ps[i].key == k
  {
    hide StrCmp;
    BelowSlot(ps, k);
    CmpAntisymmetric(k, k);
    var s := Slot(ps, k);
    if i :| 0 <= i < |ps| && ps[i].key == k {
      if s < i {
        CmpAntisymmetric(ps[s].key, k);
      }
    }
  }

  lemma RemoveAtSlot<V>(ps: seq<Pair<V>>, k: Text)
    requires Sorted(ps)
    ensures var i := Slot(ps, k);
      && Remove(ps, k) == (if Found(ps, k) then ps[..i] + ps[i + 1..] else ps)
      && Lookup(ps, k) == (if Found(ps, k) then Some(ps[i].val) else None)
  {
    hide StrCmp, Slot, Sorted, Remove, Lookup;
    FoundIsKey(ps, k);
    if Found(ps, k) {
      BelowSlot(ps, k);
      CmpAntisymmetric(k, k);
      RemoveHits(ps, k, Slot(ps, k));
    } else {
      RemoveMisses(ps, k);
    }
  }
}
