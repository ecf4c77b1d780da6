/**
 decode(encode(v)): what comes back, for every value, wherever the encoding stands; and exactly
 which values come back unchanged.
 */
module RoundTrip {
  import opened Bytes
  import opened Values
  import opened Wire
  import Dicts
  import Utf8

  // ---------------------------------------------------------------- what comes back

  /** A reference loses its operands, and an id array is cut at its first zero. */
  function NormColl(c: Coll): (r: Coll)
    decreases c
  {
    Coll(c.kind, c.attrs, UntilZero(c.ids),
         if c.kind == REFERENCE then [] else seq(|c.operands|, i requires 0 <= i < |c.operands| => NormColl(c.operands[i])))
  }

  function Norm(v: Value): (r: Value)
    decreases v
  {
    match v
    case CollV(c) => CollV(NormColl(c))
    case List(items) => List(seq(|items|, i requires 0 <= i < |items| => Norm(items[i])))
    case Dict(pairs) =>
      Dict(seq(|pairs|, i requires 0 <= i < |pairs| => Dicts.Pair(pairs[i].key, Norm(pairs[i].val))))
    case _ => v
  }

  /** No id is zero and no reference has operands, anywhere in the tree. */
  predicate CleanColl(c: Coll)
    decreases c
  {
    && 0 !in c.ids
    && (c.kind == REFERENCE ==> c.operands == [])
    && forall i :: 0 <= i < |c.operands| ==> CleanColl(c.operands[i])
  }

  predicate Clean(v: Value)
    decreases v
  {
    match v
    case CollV(c) => CleanColl(c)
    case List(items) => forall i :: 0 <= i < |items| ==> Clean(items[i])
    case Dict(pairs) => forall i :: 0 <= i < |pairs| ==> Clean(pairs[i].val)
    case _ => true
  }

  lemma {:induction false} UntilZeroIsIdentity(ids: seq<uint32>)
    ensures UntilZero(ids) == ids <==> 0 !in ids
  {
    if ids != [] && ids[0] != 0 {
      UntilZeroIsIdentity(ids[1..]);
      assert ids == [ids[0]] + ids[1..];
    }
  }

  lemma {:induction false} NormCollIdentity(c: Coll)
    ensures NormColl(c) == c <==> CleanColl(c)
    decreases c
  {
    UntilZeroIsIdentity(c.ids);
    var ops := NormColl(c).operands;
    forall i | 0 <= i < |c.operands|
      ensures NormColl(c.operands[i]) == c.operands[i] <==> CleanColl(c.operands[i])
      ensures c.kind != REFERENCE ==> ops[i] == NormColl(c.operands[i])
    {
      NormCollIdentity(c.operands[i]);
    }
    if CleanColl(c) {
      assert ops == c.operands;
    }
  }

  /** The values that survive the wire unchanged are exactly the clean ones. */
  lemma {:induction false} NormIdentity(v: Value)
    ensures Norm(v) == v <==> Clean(v)
    decreases v
  {
    match v
    case CollV(c) => NormCollIdentity(c);
    case List(items) =>
      var r := Norm(v).items;
      forall i | 0 <= i < |items| ensures r[i] == items[i] <==> Clean(items[i]) { NormIdentity(items[i]); }
      if Clean(v) { assert r == items; }
    case Dict(pairs) =>
      var r := Norm(v).pairs;
      forall i | 0 <= i < |pairs| ensures r[i] == pairs[i] <==> Clean(pairs[i].val) { NormIdentity(pairs[i].val); }
      if Clean(v) { assert r == pairs; }
    case _ =>
  }

  // ---------------------------------------------------------------- what comes back of anything

  /** Attributes set one by one, from left to right. */
  function SetAttrs(acc: seq<Pair<Text>>, attrs: seq<Pair<Text>>): (r: seq<Pair<Text>>)
    decreases |attrs|
  {
    if attrs == [] then acc else SetAttrs(AttrSet(acc, attrs[0].key, attrs[0].val), attrs[1..])
  }

  /** A type above the last one gives nothing. */
  function ReceivedColl(c: Coll): Option<Coll>
    decreases c, 1
  {
    if c.kind > TYPE_LAST then None
    else Some(Coll(c.kind, SetAttrs([], c.attrs), UntilZero(c.ids), if c.kind == REFERENCE then [] else ReceivedColls(c.operands)))
  }

  /** There are twelve types of collections, from 0 to 11. */
  lemma TwelveTypes(c: Coll)
    ensures ReceivedColl(c) == None <==> c.kind > 11
  {
  }

  /** Operands that are nothing are left out. */
  function ReceivedColls(cs: seq<Coll>): seq<Coll>
    decreases cs, 0
  {
    if cs == [] then [] else
    (if ReceivedColl(cs[0]).Some? then [ReceivedColl(cs[0]).value] else []) + ReceivedColls(cs[1..])
  }

  /** What arrives of a value, built by the library or not: a string that is not UTF-8 is nothing. */
  function Received(v: Value): Option<Value>
    decreases v, 1
  {
    match v
    case Str(s) => if Utf8.Valid(s) then Some(v) else None
    case CollV(c) => if ReceivedColl(c).Some? then Some(CollV(ReceivedColl(c).value)) else None
    case List(items) => Some(List(ReceivedItems(items)))
    case Dict(pairs) => Some(Dict(SetPairs([], pairs)))
    case _ => Some(v)
  }

  /** Items that are nothing are left out. */
  function ReceivedItems(vs: seq<Value>): seq<Value>
    decreases vs, 0
  {
    if vs == [] then [] else
    (if Received(vs[0]).Some? then [Received(vs[0]).value] else []) + ReceivedItems(vs[1..])
  }

  /** Pairs set one by one, from left to right. */
  function SetPairs(acc: seq<Pair<Value>>, ps: seq<Pair<Value>>): seq<Pair<Value>>
    decreases ps, 0
  {
    if ps == [] then acc else SetPairs(PairSet(acc, ps[0].key, Received(ps[0].val)), ps[1..])
  }

  /** Nowhere a null collection gets an attribute: that is what breaks. */
  predicate SafeColl(c: Coll)
    decreases c, 1
  {
    && (c.kind > TYPE_LAST ==> forall i :: 0 <= i < |c.attrs| ==> !Utf8.Valid(c.attrs[i].val))
    && (c.kind == REFERENCE || SafeColls(c.operands))
  }

  predicate SafeColls(cs: seq<Coll>)
    decreases cs, 0
  {
    cs == [] || (SafeColl(cs[0]) && SafeColls(cs[1..]))
  }

  predicate Safe(v: Value)
    decreases v
  {
    match v
    case CollV(c) => SafeColl(c)
    case List(items) => forall i :: 0 <= i < |items| ==> Safe(items[i])
    case Dict(pairs) => forall i :: 0 <= i < |pairs| ==> Safe(pairs[i].val)
    case _ => true
  }

  // What was set, as a map: from left to right, later values in the place of earlier ones.

  ghost function AttrMap(m: map<Text, Text>, attrs: seq<Pair<Text>>): map<Text, Text>
    decreases |attrs|
  {
    if attrs == [] then m else
    var p := attrs[0];
    AttrMap(if Utf8.Valid(p.key) && Utf8.Valid(p.val) then m[p.key := p.val] else m, attrs[1..])
  }

  ghost function PairMap(m: map<Text, Value>, ps: seq<Pair<Value>>): map<Text, Value>
    decreases |ps|
  {
    if ps == [] then m else
    var k, v := ps[0].key, Received(ps[0].val);
    PairMap(if v.Some? && Utf8.Valid(k) then m[k := v.value] else m, ps[1..])
  }

  lemma {:induction false} SetAttrsIsUpdates(acc: seq<Pair<Text>>, attrs: seq<Pair<Text>>)
    requires WfAttrs(acc)
    ensures WfAttrs(SetAttrs(acc, attrs))
    ensures Dicts.ToMap(SetAttrs(acc, attrs)) == AttrMap(Dicts.ToMap(acc), attrs)
    decreases |attrs|
  {
    hide AttrSet, WfAttrs, Utf8.Valid, Dicts.ToMap;
    if attrs != [] {
      AttrSetIsUpdate(acc, attrs[0].key, attrs[0].val);
      SetAttrsIsUpdates(AttrSet(acc, attrs[0].key, attrs[0].val), attrs[1..]);
    }
  }

  lemma {:induction false} SetPairsIsUpdates(acc: seq<Pair<Value>>, ps: seq<Pair<Value>>)
    requires Dicts.Sorted(acc)
    ensures Dicts.Sorted(SetPairs(acc, ps))
    ensures Dicts.ToMap(SetPairs(acc, ps)) == PairMap(Dicts.ToMap(acc), ps)
    decreases |ps|
  {
    hide PairSet, Utf8.Valid, Dicts.ToMap, Dicts.Sorted, Received;
    if ps != [] {
      PairSetIsUpdate(acc, ps[0].key, Received(ps[0].val));
      SetPairsIsUpdates(PairSet(acc, ps[0].key, Received(ps[0].val)), ps[1..]);
    }
  }

  // ---------------------------------------------------------------- the parts

  lemma GetTextOfEnc(buf: seq<byte>, pos: nat, s: Text)
    requires At(buf, pos, EncText(s)) && |s| + 1 < TWO_32
    ensures GetText(buf, pos) == Ok(pos + |EncText(s)|, s)
  {
    assert PutU32(|s| + 1) + (s + [0]) == EncText(s);
    GetBytesOfEnc(buf, pos, s + [0]);
    assert s + [0] + [] == s + [0];
    CStringOfTerminated(s, []);
  }

  lemma GetU32OfEnc(buf: seq<byte>, pos: nat, v: uint32)
    requires At(buf, pos, PutU32(v))
    ensures GetU32(buf, pos) == Ok(pos + 4, v)
  {
    U32AtPut(buf, pos, v);
  }

  lemma GetBytesOfEnc(buf: seq<byte>, pos: nat, d: seq<byte>)
    requires At(buf, pos, PutU32(Low32(|d|)) + d) && |d| < TWO_32
    ensures GetBytes(buf, pos) == Ok(pos + 4 + |d|, d)
  {
    hide PutU32;
    AtSplit(buf, pos, PutU32(|d|), d);
    U32AtPut(buf, pos, |d|);
  }

  lemma {:induction false} GetIdsOfEnc(buf: seq<byte>, pos: nat, ids: seq<uint32>)
    requires At(buf, pos, EncIds(ids))
    ensures GetIds(buf, pos, |ids|) == Ok(pos + |EncIds(ids)|, ids)
    ensures |ids| <= |EncIds(ids)|
    decreases ids
  {
    hide At, U32At, PutU32;
    if ids != [] {
      AtSplit(buf, pos, PutU32(ids[0]), EncIds(ids[1..]));
      U32AtPut(buf, pos, ids[0]);
      GetIdsOfEnc(buf, pos + 4, ids[1..]);
      assert ids == [ids[0]] + ids[1..];
    }
  }

  /** Attributes that arrive in key order are appended one by one. */
  lemma AttrSetAppends(acc: seq<Pair<Text>>, attrs: seq<Pair<Text>>)
    requires WfAttrs(acc + attrs) && attrs != []
    ensures AttrSet(acc, attrs[0].key, attrs[0].val) == acc + [attrs[0]]
    ensures acc + attrs == acc + [attrs[0]] + attrs[1..]
  {
    hide Utf8.Valid, Dicts.Less;
    assert attrs[0] in acc + attrs;
    forall i | 0 <= i < |acc| ensures Dicts.Less(acc[i].key, attrs[0].key) {
      assert (acc + attrs)[i] == acc[i] && (acc + attrs)[|acc|] == attrs[0];
    }
    Dicts.SetAppends(acc, attrs[0].key, attrs[0].val);
  }

  lemma {:induction false} SetAttrsSorted(acc: seq<Pair<Text>>, attrs: seq<Pair<Text>>)
    requires WfAttrs(acc + attrs)
    ensures SetAttrs(acc, attrs) == acc + attrs
    decreases |attrs|
  {
    hide AttrSet, WfAttrs;
    if attrs == [] {
      assert acc + attrs == acc;
    } else {
      AttrSetAppends(acc, attrs);
      SetAttrsSorted(acc + [attrs[0]], attrs[1..]);
    }
  }

  lemma {:induction false} GetAttrsOfEnc(buf: seq<byte>, pos: nat, acc: seq<Pair<Text>>, attrs: seq<Pair<Text>>, isNull: bool)
    requires At(buf, pos, EncAttrs(attrs)) && |EncAttrs(attrs)| < TWO_32
    requires isNull ==> forall i :: 0 <= i < |attrs| ==> !Utf8.Valid(attrs[i].val)
    ensures GetAttrs(buf, pos, |attrs|, acc, isNull) == Ok(pos + |EncAttrs(attrs)|, SetAttrs(acc, attrs))
    ensures |attrs| <= |EncAttrs(attrs)|
    decreases attrs
  {
    hide At, GetText, EncText, AttrSet, WfAttrs, Utf8.Valid;
    if attrs != [] {
      var k, v, rest := attrs[0].key, attrs[0].val, attrs[1..];
      assert EncAttrs(attrs) == EncText(k) + (EncText(v) + EncAttrs(rest));
      AtSplit(buf, pos, EncText(k), EncText(v) + EncAttrs(rest));
      AtSplit(buf, pos + |EncText(k)|, EncText(v), EncAttrs(rest));
      GetTextOfEnc(buf, pos, k);
      GetTextOfEnc(buf, pos + |EncText(k)|, v);
      GetAttrsOfEnc(buf, pos + |EncText(k)| + |EncText(v)|, AttrSet(acc, k, v), rest, isNull);
    }
  }

  // ---------------------------------------------------------------- collections

  function NormColls(cs: seq<Coll>): (r: seq<Coll>)
  {
    seq(|cs|, i requires 0 <= i < |cs| => NormColl(cs[i]))
  }

  lemma {:induction false} GetOperandsOfEnc(buf: seq<byte>, pos: nat, cs: seq<Coll>)
    requires At(buf, pos, EncOperands(cs)) && |EncOperands(cs)| < TWO_32 && SafeColls(cs)
    ensures GetOperands(buf, pos, |cs|) == Ok(pos + |EncOperands(cs)|, ReceivedColls(cs))
    ensures |cs| <= |EncOperands(cs)|
    decreases cs, 0
  {
    hide At, U32At, PutU32, GetColl, EncColl, SafeColl, ReceivedColl;
    if cs != [] {
      var c, rest := cs[0], cs[1..];
      assert EncOperands(cs) == PutU32(4) + (EncColl(c) + EncOperands(rest));
      AtSplit(buf, pos, PutU32(4), EncColl(c) + EncOperands(rest));
      AtSplit(buf, pos + 4, EncColl(c), EncOperands(rest));
      U32AtPut(buf, pos, 4);
      GetCollOfEnc(buf, pos + 4, c);
      GetOperandsOfEnc(buf, pos + 4 + |EncColl(c)|, rest);
    }
  }

  /** The seven reads that make a collection, put together. */
  lemma GetCollFromParts(buf: seq<byte>, pos: nat, kind: uint32, attrs: seq<Pair<Text>>, ids: seq<uint32>, ops: seq<Coll>,
                         na: uint32, ni: uint32, no: uint32, q2: nat, q4: nat, q6: nat)
    requires pos <= |buf| && GetU32(buf, pos) == Ok(pos + 4, kind)
    requires pos + 4 <= |buf| && GetU32(buf, pos + 4) == Ok(pos + 8, na)
    requires pos + 8 <= |buf| && GetAttrs(buf, pos + 8, na, [], kind > TYPE_LAST) == Ok(q2, attrs)
    requires q2 <= |buf| && GetU32(buf, q2) == Ok(q2 + 4, ni)
    requires q2 + 4 <= |buf| && GetIds(buf, q2 + 4, ni) == Ok(q4, ids) && 0 !in ids
    requires q4 <= |buf| && GetU32(buf, q4) == Ok(q4 + 4, no)
    requires q4 + 4 <= |buf| && GetOperands(buf, q4 + 4, no) == Ok(q6, ops)
    ensures GetColl(buf, pos) == Ok(q6, if kind <= TYPE_LAST then Some(Coll(kind, attrs, ids, ops)) else None)
  {
    hide GetU32, GetAttrs, GetIds, GetOperands, WfAttrs, WfColl, UntilZero;
    UntilZeroIsIdentity(ids);
  }

  lemma EncCollSplit(buf: seq<byte>, pos: nat, c: Coll)
    requires At(buf, pos, EncColl(c))
    ensures var ids, ops := UntilZero(c.ids), SentOperands(c);
            var q1 := pos + 4;
            var q2 := q1 + 4 + |EncAttrs(c.attrs)|;
            var q4 := q2 + 4 + |EncIds(ids)|;
            && At(buf, pos, PutU32(c.kind))
            && At(buf, q1, PutU32(Low32(|c.attrs|)) + EncAttrs(c.attrs))
            && At(buf, q2, PutU32(Low32(|ids|)) + EncIds(ids))
            && At(buf, q4, PutU32(Low32(|ops|)) + EncOperands(ops))
            && |EncColl(c)| == 16 + |EncAttrs(c.attrs)| + |EncIds(ids)| + |EncOperands(ops)|
  {
    hide At, PutU32, EncColl, EncAttrs, EncIds, EncOperands, UntilZero;
    var ids, ops := UntilZero(c.ids), SentOperands(c);
    var p1 := PutU32(Low32(|c.attrs|)) + EncAttrs(c.attrs);
    var p2 := PutU32(Low32(|ids|)) + EncIds(ids);
    var p3 := PutU32(Low32(|ops|)) + EncOperands(ops);
    EncCollShape(c);
    AtSplit(buf, pos, PutU32(c.kind), p1 + (p2 + p3));
    AtSplit(buf, pos + 4, p1, p2 + p3);
    AtSplit(buf, pos + 4 + |p1|, p2, p3);
  }

  /** A count followed by what it counts. */
  lemma CountSplit(buf: seq<byte>, pos: nat, n: nat, body: seq<byte>)
    requires At(buf, pos, PutU32(Low32(n)) + body)
    ensures pos + 4 <= |buf| && At(buf, pos + 4, body)
    ensures n < TWO_32 ==> GetU32(buf, pos) == Ok(pos + 4, n)
  {
    hide PutU32, GetU32;
    AtSplit(buf, pos, PutU32(Low32(n)), body);
    GetU32OfEnc(buf, pos, Low32(n));
  }

  lemma {:induction false} GetCollOfEnc(buf: seq<byte>, pos: nat, c: Coll)
    requires At(buf, pos, EncColl(c)) && |EncColl(c)| < TWO_32 && SafeColl(c)
    ensures GetColl(buf, pos) == Ok(pos + |EncColl(c)|, ReceivedColl(c))
    decreases c, 1
  {
    hide At, PutU32, GetU32, EncColl, EncAttrs, EncIds, EncOperands, GetAttrs, GetIds, GetOperands, GetColl,
         UntilZero, WfAttrs, SetAttrs, ReceivedColls, SafeColls, Utf8.Valid;
    var ids, ops := UntilZero(c.ids), SentOperands(c);
    EncCollSplit(buf, pos, c);
    GetU32OfEnc(buf, pos, c.kind);
    var q1 := pos + 4;
    CountSplit(buf, q1, |c.attrs|, EncAttrs(c.attrs));
    GetAttrsOfEnc(buf, q1 + 4, [], c.attrs, c.kind > TYPE_LAST);
    var q2 := q1 + 4 + |EncAttrs(c.attrs)|;
    CountSplit(buf, q2, |ids|, EncIds(ids));
    GetIdsOfEnc(buf, q2 + 4, ids);
    var q4 := q2 + 4 + |EncIds(ids)|;
    CountSplit(buf, q4, |ops|, EncOperands(ops));
    if ops == [] {
      GetNoOperands(buf, q4 + 4);
    } else {
      GetOperandsOfEnc(buf, q4 + 4, ops);
    }
    NoneReceived();
    GetCollFromParts(buf, pos, c.kind, SetAttrs([], c.attrs), ids, ReceivedColls(ops),
                     |c.attrs|, |ids|, |ops|, q2, q4, q4 + 4 + |EncOperands(ops)|);
  }

  lemma GetNoOperands(buf: seq<byte>, pos: nat)
    requires pos <= |buf|
    ensures GetOperands(buf, pos, 0) == Ok(pos + |EncOperands([])|, ReceivedColls([]))
  {
    assert EncOperands([]) == [] && ReceivedColls([]) == [];
  }

  /** What the library built arrives in normal form. */
  lemma {:induction false} WfCollReceived(c: Coll)
    requires WfColl(c)
    ensures SafeColl(c) && ReceivedColl(c) == Some(NormColl(c))
    decreases c, 1
  {
    hide SetAttrs, WfAttrs, ReceivedColls, SafeColls, UntilZero, NormColl;
    assert [] + c.attrs == c.attrs;
    SetAttrsSorted([], c.attrs);
    NormCollFields(c);
    if c.kind == REFERENCE {
      NoneReceived();
    } else {
      WfCollsReceived(c.operands);
    }
  }

  lemma NoneReceived()
    ensures SafeColls([]) && ReceivedColls([]) == NormColls([])
  {
  }

  lemma {:induction false} WfCollsReceived(cs: seq<Coll>)
    requires forall i :: 0 <= i < |cs| ==> WfColl(cs[i])
    ensures SafeColls(cs) && ReceivedColls(cs) == NormColls(cs)
    decreases cs, 0
  {
    hide SafeColl, ReceivedColl, WfColl, NormColl;
    if cs != [] {
      WfCollReceived(cs[0]);
      WfCollsReceived(cs[1..]);
      assert NormColls(cs) == [NormColl(cs[0])] + NormColls(cs[1..]);
    }
  }

  lemma NormCollFields(c: Coll)
    ensures NormColl(c) == Coll(c.kind, c.attrs, UntilZero(c.ids), NormColls(SentOperands(c)))
  {
  }

  // ---------------------------------------------------------------- values

  function NormItems(vs: seq<Value>): (r: seq<Value>) {
    seq(|vs|, i requires 0 <= i < |vs| => Norm(vs[i]))
  }

  function NormPairs(ps: seq<Pair<Value>>): (r: seq<Pair<Value>>) {
    seq(|ps|, i requires 0 <= i < |ps| => Dicts.Pair(ps[i].key, Norm(ps[i].val)))
  }

  lemma {:induction false} GetItemsOfEnc(buf: seq<byte>, pos: nat, acc: seq<Value>, vs: seq<Value>)
    requires At(buf, pos, EncItems(vs)) && |EncItems(vs)| < TWO_32 && forall i :: 0 <= i < |vs| ==> Safe(vs[i])
    ensures GetItems(buf, pos, |vs|, acc) == Ok(pos + |EncItems(vs)|, acc + ReceivedItems(vs))
    ensures |vs| <= |EncItems(vs)|
    decreases vs, 0
  {
    hide At, GetValue, EncValue, Safe, Received;
    if vs == [] {
      assert acc + ReceivedItems(vs) == acc;
    } else {
      var v, rest := vs[0], vs[1..];
      AtSplit(buf, pos, EncValue(v), EncItems(rest));
      Arrives(buf, pos, v);
      var acc' := if Received(v).Some? then acc + [Received(v).value] else acc;
      GetItemsOfEnc(buf, pos + |EncValue(v)|, acc', rest);
      assert acc + ReceivedItems(vs) == acc' + ReceivedItems(rest);
    }
  }

  /** All of `acc` comes before all of `ps` in key order. */
  ghost predicate Below(acc: seq<Pair<Value>>, ps: seq<Pair<Value>>) {
    forall i, j :: 0 <= i < |acc| && 0 <= j < |ps| ==> Dicts.Less(acc[i].key, ps[j].key)
  }

  lemma PairSetAppends(acc: seq<Pair<Value>>, ps: seq<Pair<Value>>, w: Value)
    requires WfPairs(ps) && ps != [] && Below(acc, ps)
    ensures PairSet(acc, ps[0].key, Some(w)) == acc + [Dicts.Pair(ps[0].key, w)]
    ensures Wf(ps[0].val) && WfPairs(ps[1..]) && Below(acc + [Dicts.Pair(ps[0].key, w)], ps[1..])
  {
    hide Utf8.Valid, Dicts.Less, Dicts.Set, Wf;
    Dicts.SetAppends(acc, ps[0].key, w);
  }

  lemma {:induction false} SetPairsSorted(acc: seq<Pair<Value>>, ps: seq<Pair<Value>>)
    requires WfPairs(ps) && Below(acc, ps)
    ensures SetPairs(acc, ps) == acc + NormPairs(ps)
    decreases ps, 0
  {
    hide PairSet, WfPairs, Below, Norm, Received, Wf;
    if ps == [] {
      assert acc + NormPairs(ps) == acc;
    } else {
      var acc' := acc + [Dicts.Pair(ps[0].key, Norm(ps[0].val))];
      PairSetAppends(acc, ps, Norm(ps[0].val));
      WfReceived(ps[0].val);
      SetPairsSorted(acc', ps[1..]);
      assert acc + NormPairs(ps) == acc' + NormPairs(ps[1..]);
    }
  }

  lemma {:induction false} WfItemsReceived(vs: seq<Value>)
    requires WfItems(vs)
    ensures ReceivedItems(vs) == NormItems(vs)
    decreases vs, 0
  {
    hide Norm, Received, Wf;
    if vs != [] {
      WfReceived(vs[0]);
      WfItemsReceived(vs[1..]);
      assert NormItems(vs) == [Norm(vs[0])] + NormItems(vs[1..]);
    }
  }

  /** What the library built arrives in normal form. */
  lemma {:induction false} WfReceived(v: Value)
    requires Wf(v)
    ensures Safe(v) && Received(v) == Some(Norm(v))
    decreases v, 1
  {
    hide ReceivedColl, SafeColl, WfColl, NormColl, ReceivedItems, SetPairs, Utf8.Valid;
    match v
    case CollV(c) => WfCollReceived(c);
    case List(items) =>
      forall i | 0 <= i < |items| ensures Safe(items[i]) { WfReceived(items[i]); }
      WfItemsReceived(items);
      assert NormItems(items) == Norm(v).items;
    case Dict(pairs) =>
      forall i | 0 <= i < |pairs| ensures Safe(pairs[i].val) { WfReceived(pairs[i].val); }
      SetPairsSorted([], pairs);
      assert [] + NormPairs(pairs) == Norm(v).pairs;
    case _ =>
  }

  /** The first pair and the others. */
  lemma EncPairsSplit(buf: seq<byte>, pos: nat, ps: seq<Pair<Value>>)
    requires ps != [] && At(buf, pos, EncPairs(ps))
    ensures var q := pos + |EncText(ps[0].key)|;
            && At(buf, pos, EncText(ps[0].key)) && At(buf, q, EncValue(ps[0].val))
            && At(buf, q + |EncValue(ps[0].val)|, EncPairs(ps[1..]))
            && |EncPairs(ps)| == |EncText(ps[0].key)| + |EncValue(ps[0].val)| + |EncPairs(ps[1..])|
  {
    hide At, EncText, EncValue;
    var k, v, rest := EncText(ps[0].key), EncValue(ps[0].val), EncPairs(ps[1..]);
    assert EncPairs(ps) == k + (v + rest);
    AtSplit(buf, pos, k, v + rest);
    AtSplit(buf, pos + |k|, v, rest);
  }

  lemma GetPairStep(buf: seq<byte>, pos: nat, n: nat, acc: seq<Pair<Value>>, p: nat, k: Text, q: nat, v: Option<Value>)
    requires pos <= |buf| && GetText(buf, pos) == Ok(p, k) && p <= |buf| && GetValue(buf, p) == Ok(q, v) && q <= |buf|
    ensures GetPairs(buf, pos, n + 1, acc) == GetPairs(buf, q, n, PairSet(acc, k, v))
  {
    hide GetText, GetValue, PairSet;
  }

  /** Pairs in any order, keys repeated or not: they are set one by one. */
  lemma {:induction false} GetPairsOfEnc(buf: seq<byte>, pos: nat, acc: seq<Pair<Value>>, ps: seq<Pair<Value>>)
    requires At(buf, pos, EncPairs(ps)) && |EncPairs(ps)| < TWO_32 && forall i :: 0 <= i < |ps| ==> Safe(ps[i].val)
    ensures GetPairs(buf, pos, |ps|, acc) == Ok(pos + |EncPairs(ps)|, SetPairs(acc, ps))
    ensures |ps| <= |EncPairs(ps)|
    decreases ps, 0
  {
    hide At, GetPairs, GetValue, GetText, EncValue, EncText, Received, PairSet, Safe;
    if ps == [] {
      NoPairsRead(buf, pos, acc);
    } else {
      var k, v := ps[0].key, ps[0].val;
      var p := pos + |EncText(k)|;
      var q := p + |EncValue(v)|;
      EncPairsSplit(buf, pos, ps);
      GetTextOfEnc(buf, pos, k);
      Arrives(buf, p, v);
      GetPairsOfEnc(buf, q, PairSet(acc, k, Received(v)), ps[1..]);
      GetPairStep(buf, pos, |ps| - 1, acc, p, k, q, Received(v));
    }
  }

  lemma NoPairsRead(buf: seq<byte>, pos: nat, acc: seq<Pair<Value>>)
    requires At(buf, pos, EncPairs([]))
    ensures GetPairs(buf, pos, 0, acc) == Ok(pos + |EncPairs([])|, acc)
  {
  }

  /**
   Whatever is encoded, valid or not, wherever it stands and whatever follows: the decoder returns
   what the library makes of it and stops right after the encoding.
   */
  lemma {:induction false} Arrives(buf: seq<byte>, pos: nat, v: Value)
    requires At(buf, pos, EncValue(v)) && |EncValue(v)| < TWO_32 && Safe(v)
    ensures GetValue(buf, pos) == Ok(pos + |EncValue(v)|, Received(v))
    decreases v, 1
  {
    hide At, GetU32, PutU32, EncText, EncColl, EncItems, EncPairs, GetBytes, GetText, GetColl, GetItems, GetPairs;
    hide ReceivedColl, SafeColl, ReceivedItems, SetPairs, Utf8.Valid;
    AtSplit(buf, pos, PutU32(TypeTag(v)), EncBody(v));
    GetU32OfEnc(buf, pos, TypeTag(v));
    var p := pos + 4;
    match v
    case Nothing =>
    case Error(m) => GetTextOfEnc(buf, p, m);
    case Int32(i) =>
      GetU32OfEnc(buf, p, Unsigned(i));
    case Str(s) => GetTextOfEnc(buf, p, s);
    case CollV(c) => GetCollOfEnc(buf, p, c);
    case Bin(d) =>
      GetBytesOfEnc(buf, p, d);
    case List(items) =>
      CountSplit(buf, p, |items|, EncItems(items));
      GetItemsOfEnc(buf, p + 4, [], items);
      assert [] + ReceivedItems(items) == ReceivedItems(items);
    case Dict(pairs) =>
      CountSplit(buf, p, |pairs|, EncPairs(pairs));
      GetPairsOfEnc(buf, p + 4, [], pairs);
  }

  // And where it is not safe, it breaks.

  lemma {:induction false} UnsafeAttrs(buf: seq<byte>, pos: nat, acc: seq<Pair<Text>>, attrs: seq<Pair<Text>>)
    requires At(buf, pos, EncAttrs(attrs)) && |EncAttrs(attrs)| < TWO_32
    requires exists i :: 0 <= i < |attrs| && Utf8.Valid(attrs[i].val)
    ensures Broken(GetAttrs(buf, pos, |attrs|, acc, true))
    decreases attrs
  {
    hide At, GetText, EncText, AttrSet, Utf8.Valid;
    var k, v, rest := attrs[0].key, attrs[0].val, attrs[1..];
    assert EncAttrs(attrs) == EncText(k) + (EncText(v) + EncAttrs(rest));
    AtSplit(buf, pos, EncText(k), EncText(v) + EncAttrs(rest));
    AtSplit(buf, pos + |EncText(k)|, EncText(v), EncAttrs(rest));
    GetTextOfEnc(buf, pos, k);
    GetTextOfEnc(buf, pos + |EncText(k)|, v);
    if !Utf8.Valid(v) {
      var i :| 0 <= i < |attrs| && Utf8.Valid(attrs[i].val);
      assert rest[i - 1] == attrs[i];
      UnsafeAttrs(buf, pos + |EncText(k)| + |EncText(v)|, AttrSet(acc, k, v), rest);
    }
  }

  lemma {:induction false} UnsafeOperands(buf: seq<byte>, pos: nat, cs: seq<Coll>)
    requires At(buf, pos, EncOperands(cs)) && |EncOperands(cs)| < TWO_32 && !SafeColls(cs)
    ensures Broken(GetOperands(buf, pos, |cs|))
    decreases cs, 0
  {
    hide At, U32At, PutU32, GetColl, EncColl, SafeColl, ReceivedColl;
    var c, rest := cs[0], cs[1..];
    assert EncOperands(cs) == PutU32(4) + (EncColl(c) + EncOperands(rest));
    AtSplit(buf, pos, PutU32(4), EncColl(c) + EncOperands(rest));
    AtSplit(buf, pos + 4, EncColl(c), EncOperands(rest));
    U32AtPut(buf, pos, 4);
    if SafeColl(c) {
      GetCollOfEnc(buf, pos + 4, c);
      UnsafeOperands(buf, pos + 4 + |EncColl(c)|, rest);
    } else {
      UnsafeColl(buf, pos + 4, c);
    }
  }

  /** What the operand reader does with a broken collection, the reader of the whole does. */
  lemma BrokenParts(buf: seq<byte>, pos: nat, kind: uint32, na: uint32, ni: uint32, no: uint32, q2: nat, q4: nat)
    requires pos <= |buf| && GetU32(buf, pos) == Ok(pos + 4, kind)
    requires pos + 4 <= |buf| && GetU32(buf, pos + 4) == Ok(pos + 8, na) && pos + 8 <= |buf|
    requires var attrs := GetAttrs(buf, pos + 8, na, [], kind > TYPE_LAST);
      || Broken(attrs)
      || (&& attrs.Ok? && attrs.pos == q2 && q2 <= |buf| && GetU32(buf, q2) == Ok(q2 + 4, ni)
          && q2 + 4 <= |buf| && GetIds(buf, q2 + 4, ni).Ok? && GetIds(buf, q2 + 4, ni).pos == q4
          && q4 <= |buf| && GetU32(buf, q4) == Ok(q4 + 4, no)
          && q4 + 4 <= |buf| && Broken(GetOperands(buf, q4 + 4, no)))
    ensures Broken(GetColl(buf, pos))
  {
    hide GetU32, GetAttrs, GetIds, GetOperands, WfAttrs, WfColl, UntilZero;
  }

  lemma {:induction false} UnsafeColl(buf: seq<byte>, pos: nat, c: Coll)
    requires At(buf, pos, EncColl(c)) && |EncColl(c)| < TWO_32 && !SafeColl(c)
    ensures Broken(GetColl(buf, pos))
    decreases c, 1
  {
    hide At, PutU32, GetU32, EncColl, EncAttrs, EncIds, EncOperands, GetAttrs, GetIds, GetOperands, GetColl,
         UntilZero, WfAttrs, SetAttrs, SafeColls, Utf8.Valid;
    var ids, ops := UntilZero(c.ids), SentOperands(c);
    EncCollSplit(buf, pos, c);
    GetU32OfEnc(buf, pos, c.kind);
    var q1 := pos + 4;
    AttrsCount(c.attrs);
    CountSplit(buf, q1, |c.attrs|, EncAttrs(c.attrs));
    var q2 := q1 + 4 + |EncAttrs(c.attrs)|;
    var q4 := q2 + 4 + |EncIds(ids)|;
    if c.kind > TYPE_LAST && exists i :: 0 <= i < |c.attrs| && Utf8.Valid(c.attrs[i].val) {
      UnsafeAttrs(buf, q1 + 4, [], c.attrs);
    } else {
      GetAttrsOfEnc(buf, q1 + 4, [], c.attrs, c.kind > TYPE_LAST);
      CountSplit(buf, q2, |ids|, EncIds(ids));
      GetIdsOfEnc(buf, q2 + 4, ids);
      CountSplit(buf, q4, |ops|, EncOperands(ops));
      OperandsCount(ops);
      UnsafeOperands(buf, q4 + 4, ops);
    }
    BrokenParts(buf, pos, c.kind, |c.attrs|, Low32(|ids|), Low32(|ops|), q2, q4);
  }

  lemma {:induction false} AttrsCount(attrs: seq<Pair<Text>>)
    ensures |attrs| <= |EncAttrs(attrs)|
  {
    if attrs != [] { AttrsCount(attrs[1..]); }
  }

  lemma {:induction false} OperandsCount(cs: seq<Coll>)
    ensures |cs| <= |EncOperands(cs)|
  {
    if cs != [] { OperandsCount(cs[1..]); }
  }

  lemma {:induction false} ItemsCount(vs: seq<Value>)
    ensures |vs| <= |EncItems(vs)|
  {
    if vs != [] { ItemsCount(vs[1..]); }
  }

  lemma {:induction false} PairsCount(ps: seq<Pair<Value>>)
    ensures |ps| <= |EncPairs(ps)|
  {
    if ps != [] { PairsCount(ps[1..]); }
  }

  lemma {:induction false} UnsafeItems(buf: seq<byte>, pos: nat, acc: seq<Value>, vs: seq<Value>)
    requires At(buf, pos, EncItems(vs)) && |EncItems(vs)| < TWO_32 && exists i :: 0 <= i < |vs| && !Safe(vs[i])
    ensures Broken(GetItems(buf, pos, |vs|, acc))
    decreases vs, 0
  {
    hide At, GetValue, EncValue, Safe, Received;
    var v, rest := vs[0], vs[1..];
    AtSplit(buf, pos, EncValue(v), EncItems(rest));
    if Safe(v) {
      var i :| 0 <= i < |vs| && !Safe(vs[i]);
      assert rest[i - 1] == vs[i];
      Arrives(buf, pos, v);
      UnsafeItems(buf, pos + |EncValue(v)|, if Received(v).Some? then acc + [Received(v).value] else acc, rest);
    } else {
      Unsafe(buf, pos, v);
    }
  }

  lemma {:induction false} UnsafePairs(buf: seq<byte>, pos: nat, acc: seq<Pair<Value>>, ps: seq<Pair<Value>>)
    requires At(buf, pos, EncPairs(ps)) && |EncPairs(ps)| < TWO_32 && exists i :: 0 <= i < |ps| && !Safe(ps[i].val)
    ensures Broken(GetPairs(buf, pos, |ps|, acc))
    decreases ps, 0
  {
    hide At, GetValue, GetText, EncValue, EncText, Received, PairSet, Safe;
    var k, v, rest := ps[0].key, ps[0].val, ps[1..];
    var p := pos + |EncText(k)|;
    EncPairsSplit(buf, pos, ps);
    GetTextOfEnc(buf, pos, k);
    if Safe(v) {
      var i :| 0 <= i < |ps| && !Safe(ps[i].val);
      assert rest[i - 1] == ps[i];
      Arrives(buf, p, v);
      UnsafePairs(buf, p + |EncValue(v)|, PairSet(acc, k, Received(v)), rest);
    } else {
      Unsafe(buf, p, v);
    }
  }

  lemma {:induction false} Unsafe(buf: seq<byte>, pos: nat, v: Value)
    requires At(buf, pos, EncValue(v)) && |EncValue(v)| < TWO_32 && !Safe(v)
    ensures Broken(GetValue(buf, pos))
    decreases v, 1
  {
    hide At, GetU32, PutU32, EncColl, EncItems, EncPairs, GetColl, GetItems, GetPairs, SafeColl;
    AtSplit(buf, pos, PutU32(TypeTag(v)), EncBody(v));
    GetU32OfEnc(buf, pos, TypeTag(v));
    var p := pos + 4;
    match v
    case CollV(c) => UnsafeColl(buf, p, c);
    case List(items) =>
      ItemsCount(items);
      CountSplit(buf, p, |items|, EncItems(items));
      UnsafeItems(buf, p + 4, [], items);
    case Dict(pairs) =>
      PairsCount(pairs);
      CountSplit(buf, p, |pairs|, EncPairs(pairs));
      UnsafePairs(buf, p + 4, [], pairs);
    case _ =>
  }

  /** Decoding what was encoded breaks exactly when a null collection gets an attribute. */
  lemma ArrivesExactly(before: seq<byte>, v: Value, after: seq<byte>)
    requires |EncValue(v)| < TWO_32
    ensures var r := GetValue(before + EncValue(v) + after, |before|);
            if Safe(v) then r == Ok(|before| + |EncValue(v)|, Received(v)) else Broken(r)
  {
    hide GetValue, EncValue, Safe, Received;
    if Safe(v) {
      Arrives(before + EncValue(v) + after, |before|, v);
    } else {
      Unsafe(before + EncValue(v) + after, |before|, v);
    }
  }

  /**
   A dict of any pairs, in any order and with keys repeated: it arrives sorted, and as a map it is
   what setting them from left to right makes.
   */
  lemma AnyPairsArrive(buf: seq<byte>, pos: nat, ps: seq<Pair<Value>>)
    requires At(buf, pos, PutU32(Low32(|ps|)) + EncPairs(ps)) && |EncPairs(ps)| < TWO_32
    requires forall i :: 0 <= i < |ps| ==> Safe(ps[i].val)
    ensures pos <= |buf|
    ensures var r := GetDict(buf, pos);
            && r.Ok? && r.pos == pos + 4 + |EncPairs(ps)| && Dicts.Sorted(r.val)
            && Dicts.ToMap(r.val) == PairMap(map[], ps)
  {
    hide At, PutU32, GetU32, EncPairs, GetPairs, SetPairs, Safe, Dicts.Sorted, PairMap;
    CountSplit(buf, pos, |ps|, EncPairs(ps));
    GetPairsOfEnc(buf, pos + 4, [], ps);
    NoPairs();
    SetPairsIsUpdates([], ps);
  }

  lemma NoPairs()
    ensures Dicts.Sorted<Value>([]) && Dicts.ToMap<Value>([]) == map[]
  {
  }

  /**
   Self-delimiting round trip: wherever the encoding of a value stands, and whatever follows it,
   the decoder returns the value's normal form and stops right after the encoding.
   */
  lemma RoundTrip(buf: seq<byte>, pos: nat, v: Value)
    requires At(buf, pos, EncValue(v)) && |EncValue(v)| < TWO_32 && Wf(v)
    ensures GetValue(buf, pos) == Ok(pos + |EncValue(v)|, Some(Norm(v)))
  {
    hide At, GetValue, EncValue, Wf, Norm, Received, Safe;
    WfReceived(v);
    Arrives(buf, pos, v);
  }

  /** The law as callers see it: a value comes back equal exactly when it is clean. */
  lemma SelfDelimiting(before: seq<byte>, v: Value, after: seq<byte>)
    requires |EncValue(v)| < TWO_32 && Wf(v)
    ensures var r := GetValue(before + EncValue(v) + after, |before|);
            && r == Ok(|before| + |EncValue(v)|, Some(Norm(v)))
            && (r.val == Some(v) <==> Clean(v))
  {
    RoundTrip(before + EncValue(v) + after, |before|, v);
    NormIdentity(v);
  }

  lemma {:induction false} EncCollOfNorm(c: Coll)
    ensures EncColl(NormColl(c)) == EncColl(c)
    decreases c, 1
  {
    hide EncColl, EncAttrs, EncIds, EncOperands, PutU32, NormColl;
    var d, ops := NormColl(c), SentOperands(c);
    NormCollFields(c);
    UntilZeroIsIdentity(UntilZero(c.ids));
    assert SentOperands(d) == NormColls(ops);
    if ops == [] {
      assert NormColls(ops) == ops;
    } else {
      EncOperandsOfNorm(c.operands);
    }
    EncCollShape(c);
    EncCollShape(d);
  }

  lemma {:induction false} EncOperandsOfNorm(cs: seq<Coll>)
    ensures |NormColls(cs)| == |cs| && EncOperands(NormColls(cs)) == EncOperands(cs)
    decreases cs, 0
  {
    hide EncColl, NormColl, PutU32;
    if cs != [] {
      EncCollOfNorm(cs[0]);
      EncOperandsOfNorm(cs[1..]);
      assert NormColls(cs)[1..] == NormColls(cs[1..]);
    }
  }

  /** What is lost on the way was never sent. */
  lemma {:induction false} EncOfNorm(v: Value)
    ensures EncValue(Norm(v)) == EncValue(v)
    decreases v, 1
  {
    hide EncColl, EncItems, EncPairs, EncText, PutU32, NormColl;
    match v
    case CollV(c) => EncCollOfNorm(c);
    case List(items) =>
      EncItemsOfNorm(items);
      assert Norm(v).items == NormItems(items);
    case Dict(pairs) =>
      EncPairsOfNorm(pairs);
      assert Norm(v).pairs == NormPairs(pairs);
    case _ =>
  }

  lemma {:induction false} EncItemsOfNorm(vs: seq<Value>)
    ensures EncItems(NormItems(vs)) == EncItems(vs)
    decreases vs, 0
  {
    hide EncValue, Norm;
    if vs != [] {
      EncOfNorm(vs[0]);
      EncItemsOfNorm(vs[1..]);
      assert NormItems(vs)[1..] == NormItems(vs[1..]);
    }
  }

  lemma {:induction false} EncPairsOfNorm(ps: seq<Pair<Value>>)
    ensures EncPairs(NormPairs(ps)) == EncPairs(ps)
    decreases ps, 0
  {
    hide EncValue, EncText, Norm;
    if ps != [] {
      EncOfNorm(ps[0].val);
      EncPairsOfNorm(ps[1..]);
      assert NormPairs(ps)[1..] == NormPairs(ps[1..]);
    }
  }

  /** Two values have the same bytes exactly when they have the same normal form. */
  lemma SameBytes(v: Value, w: Value)
    requires |EncValue(v)| < TWO_32 && Wf(v) && Wf(w)
    ensures EncValue(v) == EncValue(w) <==> Norm(v) == Norm(w)
  {
    hide EncValue, Norm, Wf;
    EncOfNorm(v);
    EncOfNorm(w);
    if EncValue(v) == EncValue(w) {
      SelfDelimiting([], v, []);
      SelfDelimiting([], w, []);
    }
  }

  /** So on clean values the encoding is injective. */
  lemma EncodingInjective(v: Value, w: Value)
    requires |EncValue(v)| < TWO_32 && Wf(v) && Wf(w) && Clean(v) && Clean(w)
    requires EncValue(v) == EncValue(w)
    ensures v == w
  {
    SameBytes(v, w);
    NormIdentity(v);
    NormIdentity(w);
  }

  lemma {:induction false} NormCollClean(c: Coll)
    ensures CleanColl(NormColl(c))
    decreases c
  {
    forall i | 0 <= i < |c.operands| ensures CleanColl(NormColl(c.operands[i])) { NormCollClean(c.operands[i]); }
  }

  /** Sending a second time changes nothing more. */
  lemma {:induction false} NormClean(v: Value)
    ensures Clean(Norm(v))
    decreases v
  {
    match v
    case CollV(c) => NormCollClean(c);
    case List(items) => forall i | 0 <= i < |items| ensures Clean(Norm(items[i])) { NormClean(items[i]); }
    case Dict(pairs) => forall i | 0 <= i < |pairs| ensures Clean(Norm(pairs[i].val)) { NormClean(pairs[i].val); }
    case _ =>
  }
}
