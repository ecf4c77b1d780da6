/**
 The values that travel over the wire, and what the library's constructors guarantee of them.
 */
module Values {
  import opened Bytes
  import Dicts
  import Utf8

  type Pair<V> = Dicts.Pair<V>

  /** A collection; `ids` is the zero-terminated id array without its terminator. */
  datatype Coll = Coll(kind: uint32, attrs: seq<Pair<Text>>, ids: seq<uint32>, operands: seq<Coll>)

  /** xmmsv_t.  A dict is its pairs in the order of the flat list. */
  datatype Value =
    | Nothing
    | Error(msg: Text)
    | Int32(i: int32)
    | Str(s: Text)
    | CollV(c: Coll)
    | Bin(data: seq<byte>)
    | List(items: seq<Value>)
    | Dict(pairs: seq<Pair<Value>>)

  /** xmmsv_type_t */
  function TypeTag(v: Value): uint32 {
    match v
    case Nothing => 0
    case Error(_) => 1
    case Int32(_) => 2
    case Str(_) => 3
    case CollV(_) => 4
    case Bin(_) => 5
    case List(_) => 6
    case Dict(_) => 7
  }

  const REFERENCE: uint32 := 0
  const UNION: uint32 := 1
  const INTERSECTION: uint32 := 2
  const COMPLEMENT: uint32 := 3
  const HAS: uint32 := 4
  const EQUALS: uint32 := 5
  const MATCH: uint32 := 6
  const SMALLER: uint32 := 7
  const GREATER: uint32 := 8
  const TYPE_LAST: uint32 := 11

  /** xmmsv_coll_new: NULL for a type above the last one. */
  function NewColl(kind: uint32): Option<Coll> {
    if kind <= TYPE_LAST then Some(Coll(kind, [], [], [])) else None
  }

  /** xmmsv_new_string: NULL unless the bytes have the shape of UTF-8. */
  function NewString(s: Text): Option<Value> {
    if Utf8.Valid(s) then Some(Str(s)) else None
  }

  /** xmmsv_coll_attribute_set: a value or a new key that is not UTF-8 leaves the dict alone. */
  function AttrSet(attrs: seq<Pair<Text>>, k: Text, v: Text): (r: seq<Pair<Text>>)
    ensures WfAttrs(attrs) ==> WfAttrs(r)
  {
    if Utf8.Valid(v) && Utf8.Valid(k) then
      assert WfAttrs(attrs) ==> Dicts.Sorted(Dicts.Set(attrs, k, v)) by {
        if WfAttrs(attrs) { Dicts.SetIsMapUpdate(attrs, k, v); }
      }
      Dicts.Set(attrs, k, v)
    else
      attrs
  }

  /** On the map: an update when key and value are UTF-8, and nothing otherwise. */
  lemma AttrSetIsUpdate(attrs: seq<Pair<Text>>, k: Text, v: Text)
    requires WfAttrs(attrs)
    ensures Dicts.ToMap(AttrSet(attrs, k, v)) ==
      if Utf8.Valid(k) && Utf8.Valid(v) then Dicts.ToMap(attrs)[k := v] else Dicts.ToMap(attrs)
  {
    Dicts.SetIsMapUpdate(attrs, k, v);
  }

  ghost predicate WfAttrs(attrs: seq<Pair<Text>>) {
    && Dicts.Sorted(attrs)
    && forall p :: p in attrs ==> Utf8.Valid(p.key) && Utf8.Valid(p.val)
  }

  /** What holds of every collection the library can build. */
  ghost predicate WfColl(c: Coll) {
    && c.kind <= TYPE_LAST
    && WfAttrs(c.attrs)
    && forall i :: 0 <= i < |c.operands| ==> WfColl(c.operands[i])
  }

  /** What holds of every value the library can build. */
  ghost predicate Wf(v: Value) {
    match v
    case Str(s) => Utf8.Valid(s)
    case CollV(c) => WfColl(c)
    case List(items) => forall i :: 0 <= i < |items| ==> Wf(items[i])
    case Dict(pairs) =>
      && Dicts.Sorted(pairs)
      && forall i :: 0 <= i < |pairs| ==> Utf8.Valid(pairs[i].key) && Wf(pairs[i].val)
    case _ => true
  }
}
