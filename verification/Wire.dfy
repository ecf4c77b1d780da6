/**
 The wire format: a pure encoder that knows every count before it writes it, a pure decoder over
 arbitrary bytes, and the law that connects them.
 */
module Wire {
  import opened Bytes
  import opened Values
  import Dicts
  import Utf8

  // ---------------------------------------------------------------- encoder

  function EncText(s: Text): (r: seq<byte>)
    ensures |r| == |s| + 5
  {
    PutU32(Low32(|s| + 1)) + s + [0]
  }

  function EncIds(ids: seq<uint32>): seq<byte> {
    if ids == [] then [] else PutU32(ids[0]) + EncIds(ids[1..])
  }

  function EncAttrs(attrs: seq<Pair<Text>>): seq<byte> {
    if attrs == [] then [] else EncText(attrs[0].key) + EncText(attrs[0].val) + EncAttrs(attrs[1..])
  }

  /** The ids that a loop up to the first zero sees. */
  function UntilZero(ids: seq<uint32>): (r: seq<uint32>)
    ensures |r| <= |ids| && 0 !in r
  {
    if ids == [] || ids[0] == 0 then [] else [ids[0]] + UntilZero(ids[1..])
  }

  /** A reference is sent without its operands. */
  function SentOperands(c: Coll): seq<Coll> {
    if c.kind == REFERENCE then [] else c.operands
  }

  function EncColl(c: Coll): seq<byte>
    decreases c, 1
  {
    var ids := UntilZero(c.ids);
    PutU32(c.kind)
    + (PutU32(Low32(|c.attrs|)) + EncAttrs(c.attrs))
    + (PutU32(Low32(|ids|)) + EncIds(ids))
    + if c.kind == REFERENCE then PutU32(0)
      else PutU32(Low32(|c.operands|)) + EncOperands(c.operands)
  }

  function EncOperands(cs: seq<Coll>): seq<byte>
    decreases cs, 0
  {
    if cs == [] then [] else PutU32(TypeTag(CollV(cs[0]))) + EncColl(cs[0]) + EncOperands(cs[1..])
  }

  /** A collection is its type and three counted parts. */
  lemma EncCollShape(c: Coll)
    ensures var ids, ops := UntilZero(c.ids), SentOperands(c);
            EncColl(c) == PutU32(c.kind)
              + ((PutU32(Low32(|c.attrs|)) + EncAttrs(c.attrs))
                + ((PutU32(Low32(|ids|)) + EncIds(ids))
                  + (PutU32(Low32(|ops|)) + EncOperands(ops))))
  {
    hide PutU32, EncAttrs, EncIds, UntilZero;
    if c.kind == REFERENCE {
      assert PutU32(0) + EncOperands([]) == PutU32(0);
    }
  }

  lemma NoOperands()
    ensures EncOperands([]) == []
  {
  }

  function EncValue(v: Value): seq<byte>
    decreases v, 1
  {
    PutU32(TypeTag(v)) + EncBody(v)
  }

  function EncBody(v: Value): seq<byte>
    decreases v, 0
  {
    match v
    case Nothing => []
    case Error(m) => EncText(m)
    case Int32(i) => PutU32(Unsigned(i))
    case Str(s) => EncText(s)
    case CollV(c) => EncColl(c)
    case Bin(d) => PutU32(Low32(|d|)) + d
    case List(items) => PutU32(Low32(|items|)) + EncItems(items)
    case Dict(pairs) => PutU32(Low32(|pairs|)) + EncPairs(pairs)
  }

  function EncItems(vs: seq<Value>): seq<byte>
    decreases vs, 0
  {
    if vs == [] then [] else EncValue(vs[0]) + EncItems(vs[1..])
  }

  function EncPairs(ps: seq<Pair<Value>>): seq<byte>
    decreases ps, 0
  {
    if ps == [] then [] else EncText(ps[0].key) + EncValue(ps[0].val) + EncPairs(ps[1..])
  }

  /** What is left to write from index `i` on. */
  lemma EncItemsFrom(vs: seq<Value>, i: nat)
    requires i <= |vs|
    ensures EncItems(vs[i..]) == if i == |vs| then [] else EncValue(vs[i]) + EncItems(vs[i + 1..])
  {
    if i < |vs| { assert vs[i..][1..] == vs[i + 1..]; }
  }

  lemma EncAttrsFrom(attrs: seq<Pair<Text>>, i: nat)
    requires i <= |attrs|
    ensures EncAttrs(attrs[i..])
         == if i == |attrs| then [] else EncText(attrs[i].key) + EncText(attrs[i].val) + EncAttrs(attrs[i + 1..])
  {
    if i < |attrs| { assert attrs[i..][1..] == attrs[i + 1..]; }
  }

  lemma EncOperandsFrom(cs: seq<Coll>, i: nat)
    requires i <= |cs|
    ensures EncOperands(cs[i..])
         == if i == |cs| then [] else PutU32(4) + EncColl(cs[i]) + EncOperands(cs[i + 1..])
  {
    if i < |cs| { assert cs[i..][1..] == cs[i + 1..]; }
  }

  lemma EncPairsFrom(ps: seq<Pair<Value>>, i: nat)
    requires i <= |ps|
    ensures EncPairs(ps[i..])
         == if i == |ps| then [] else EncText(ps[i].key) + EncValue(ps[i].val) + EncPairs(ps[i + 1..])
  {
    if i < |ps| { assert ps[i..][1..] == ps[i + 1..]; }
  }

  // ---------------------------------------------------------------- decoder

  /**
   Where a read left the cursor, and what it read unless it failed; `broken` marks the failure that
   is a use of a null collection, where the C program is undefined.
   */
  datatype Got<+T> = Fail(pos: nat, broken: bool) | Ok(pos: nat, val: T)

  predicate Broken<T>(r: Got<T>) { r.Fail? && r.broken }

  /** The cursor stays inside the buffer, and success costs at least `cost` bytes. */
  ghost predicate Moved<T>(buf: seq<byte>, pos: nat, r: Got<T>, cost: nat) {
    && pos <= r.pos <= |buf|
    && (r.Ok? ==> pos + cost <= r.pos)
  }

  function GetU32(buf: seq<byte>, pos: nat): (r: Got<uint32>)
    requires pos <= |buf|
    ensures Moved(buf, pos, r, 4) && !Broken(r)
  {
    if 4 > |buf| - pos then Fail(pos, false) else Ok(pos + 4, U32At(buf, pos))
  }

  function GetBytes(buf: seq<byte>, pos: nat): (r: Got<seq<byte>>)
    requires pos <= |buf|
    ensures Moved(buf, pos, r, 4) && !Broken(r)
  {
    match GetU32(buf, pos)
    case Fail(p, b) => Fail(p, b)
    case Ok(p, l) => if l > |buf| - p then Fail(p, false) else Ok(p + l, buf[p..p + l])
  }

  /** The bytes are read as a C string, so they count up to the first NUL. */
  function GetText(buf: seq<byte>, pos: nat): (r: Got<Text>)
    requires pos <= |buf|
    ensures Moved(buf, pos, r, 4) && !Broken(r)
  {
    match GetBytes(buf, pos)
    case Fail(p, b) => Fail(p, b)
    case Ok(p, b) => Ok(p, CString(b))
  }

  /** A string ends at its first NUL, or with its data when there is none. */
  lemma TextEnds(buf: seq<byte>, pos: nat)
    requires pos <= |buf| && GetText(buf, pos).Ok?
    ensures pos + 4 <= |buf|
    ensures var s, end := GetText(buf, pos).val, pos + 4 + U32At(buf, pos);
      && GetText(buf, pos).pos == end <= |buf|
      && s == buf[pos + 4..pos + 4 + |s|]
      && pos + 4 + |s| <= end && (pos + 4 + |s| < end ==> buf[pos + 4 + |s|] == 0)
  {
    hide U32At, CString;
    var l := U32At(buf, pos);
    var b := buf[pos + 4..pos + 4 + l];
    var s := CString(b);
    assert s == b[..|s|] == buf[pos + 4..pos + 4 + |s|];
  }

  /** The outcome of a read that had already collected `acc`. */
  function Prefixed<T>(acc: seq<T>, r: Got<seq<T>>): Got<seq<T>> {
    if r.Ok? then Ok(r.pos, acc + r.val) else r
  }

  lemma PrefixedNil<T>(r: Got<seq<T>>)
    ensures Prefixed([], r) == r
  {
    if r.Ok? { assert [] + r.val == r.val; }
  }

  lemma PrefixedEmpty<T>(acc: seq<T>, pos: nat)
    ensures Prefixed(acc, Ok(pos, [])) == Ok(pos, acc)
  {
    assert acc + [] == acc;
  }

  lemma PrefixedTwice<T>(a: seq<T>, b: seq<T>, r: Got<seq<T>>)
    ensures Prefixed(a, Prefixed(b, r)) == Prefixed(a + b, r)
  {
    if r.Ok? { assert a + (b + r.val) == (a + b) + r.val; }
  }

  /** The attributes of a collection; setting one in the null collection is the use that breaks. */
  function GetAttrs(buf: seq<byte>, pos: nat, n: nat, acc: seq<Pair<Text>>, isNull: bool): (r: Got<seq<Pair<Text>>>)
    requires pos <= |buf|
    ensures Moved(buf, pos, r, 0)
    ensures WfAttrs(acc) && r.Ok? ==> WfAttrs(r.val)
    decreases n
  {
    if n == 0 then Ok(pos, acc) else
    match GetText(buf, pos)
    case Fail(p, b) => Fail(p, b)
    case Ok(p, k) =>
      match GetText(buf, p)
      case Fail(q, b) => Fail(q, b)
      case Ok(q, v) =>
        if isNull && Utf8.Valid(v) then Fail(q, true)
        else GetAttrs(buf, q, n - 1, AttrSet(acc, k, v), isNull)
  }

  function GetIds(buf: seq<byte>, pos: nat, n: nat): (r: Got<seq<uint32>>)
    requires pos <= |buf|
    ensures Moved(buf, pos, r, 0) && !Broken(r)
    decreases n
  {
    if n == 0 then Ok(pos, []) else
    match GetU32(buf, pos)
    case Fail(p, b) => Fail(p, b)
    case Ok(p, id) => Prefixed([id], GetIds(buf, p, n - 1))
  }

  /**
   The four parts of a collection.  A type above the last one gives the null collection: the
   parts are still read, unless an attribute is set, and nothing is built.
   */
  function GetColl(buf: seq<byte>, pos: nat): (r: Got<Option<Coll>>)
    requires pos <= |buf|
    ensures Moved(buf, pos, r, 16)
    ensures r.Ok? && r.val.Some? ==> WfColl(r.val.value) && 0 !in r.val.value.ids
    decreases |buf| - pos, 0
  {
    match GetU32(buf, pos)
    case Fail(p, b) => Fail(p, b)
    case Ok(p, kind) =>
      match GetU32(buf, p)
      case Fail(q, b) => Fail(q, b)
      case Ok(q, nattrs) =>
        match GetAttrs(buf, q, nattrs, [], kind > TYPE_LAST)
        case Fail(p1, b) => Fail(p1, b)
        case Ok(p1, attrs) =>
          match GetU32(buf, p1)
          case Fail(q1, b) => Fail(q1, b)
          case Ok(q1, nids) =>
            match GetIds(buf, q1, nids)
            case Fail(p2, b) => Fail(p2, b)
            case Ok(p2, ids) =>
              match GetU32(buf, p2)
              case Fail(q2, b) => Fail(q2, b)
              case Ok(q2, nops) =>
                match GetOperands(buf, q2, nops)
                case Fail(p3, b) => Fail(p3, b)
                case Ok(p3, ops) =>
                  Ok(p3, if kind <= TYPE_LAST then Some(Coll(kind, attrs, UntilZero(ids), ops)) else None)
  }

  /** A null operand is refused by xmmsv_coll_add_operand. */
  function GetOperands(buf: seq<byte>, pos: nat, n: nat): (r: Got<seq<Coll>>)
    requires pos <= |buf|
    ensures Moved(buf, pos, r, 0)
    ensures r.Ok? ==> forall i :: 0 <= i < |r.val| ==> WfColl(r.val[i])
    decreases |buf| - pos, 1
  {
    if n == 0 then Ok(pos, []) else
    match GetU32(buf, pos)
    case Fail(p, b) => Fail(p, b)
    case Ok(p, tag) =>
      if tag != 4 then Fail(p, false) else
      match GetColl(buf, p)
      case Fail(q, b) => Fail(q, b)
      case Ok(q, c) => Prefixed(if c.Some? then [c.value] else [], GetOperands(buf, q, n - 1))
  }

  /** Success with `None` is the null value that xmmsv_new_string or xmmsv_new_coll returned. */
  function GetValue(buf: seq<byte>, pos: nat): (r: Got<Option<Value>>)
    requires pos <= |buf|
    ensures Moved(buf, pos, r, 4)
    ensures r.Ok? && r.val.Some? ==> Wf(r.val.value)
    decreases |buf| - pos, 0
  {
    match GetU32(buf, pos)
    case Fail(p, b) => Fail(p, b)
    case Ok(p, tag) =>
      match Signed(tag)
      case 0 => Ok(p, Some(Nothing))
      case 1 =>
        (match GetText(buf, p)
         case Fail(q, b) => Fail(q, b)
         case Ok(q, m) => Ok(q, Some(Error(m))))
      case 2 =>
        (match GetU32(buf, p)
         case Fail(q, b) => Fail(q, b)
         case Ok(q, i) => Ok(q, Some(Int32(Signed(i)))))
      case 3 =>
        (match GetText(buf, p)
         case Fail(q, b) => Fail(q, b)
         case Ok(q, s) => Ok(q, NewString(s)))
      case 4 =>
        (match GetColl(buf, p)
         case Fail(q, b) => Fail(q, b)
         case Ok(q, c) => Ok(q, if c.Some? then Some(CollV(c.value)) else None))
      case 5 =>
        (match GetBytes(buf, p)
         case Fail(q, b) => Fail(q, b)
         case Ok(q, d) => Ok(q, Some(Bin(d))))
      case 6 =>
        (match GetList(buf, p)
         case Fail(q, b) => Fail(q, b)
         case Ok(q, vs) => Ok(q, Some(List(vs))))
      case 7 =>
        (match GetDict(buf, p)
         case Fail(q, b) => Fail(q, b)
         case Ok(q, ps) => Ok(q, Some(Dict(ps))))
      case _ => Fail(p, false)
  }

  function GetList(buf: seq<byte>, pos: nat): (r: Got<seq<Value>>)
    requires pos <= |buf|
    ensures Moved(buf, pos, r, 4)
    ensures r.Ok? ==> WfItems(r.val)
    decreases |buf| - pos, 1
  {
    match GetU32(buf, pos)
    case Fail(p, b) => Fail(p, b)
    case Ok(p, n) => GetItems(buf, p, n, [])
  }

  function GetDict(buf: seq<byte>, pos: nat): (r: Got<seq<Pair<Value>>>)
    requires pos <= |buf|
    ensures Moved(buf, pos, r, 4)
    ensures r.Ok? ==> WfPairs(r.val)
    decreases |buf| - pos, 1
  {
    match GetU32(buf, pos)
    case Fail(p, b) => Fail(p, b)
    case Ok(p, n) => GetPairs(buf, p, n, [])
  }

  /** xmmsv_list_append refuses a null value. */
  function GetItems(buf: seq<byte>, pos: nat, n: nat, acc: seq<Value>): (r: Got<seq<Value>>)
    requires pos <= |buf|
    ensures Moved(buf, pos, r, 0)
    ensures WfItems(acc) && r.Ok? ==> WfItems(r.val)
    decreases |buf| - pos, 1
  {
    if n == 0 then Ok(pos, acc) else
    match GetValue(buf, pos)
    case Fail(p, b) => Fail(p, b)
    case Ok(p, v) => GetItems(buf, p, n - 1, if v.Some? then acc + [v.value] else acc)
  }

  function GetPairs(buf: seq<byte>, pos: nat, n: nat, acc: seq<Pair<Value>>): (r: Got<seq<Pair<Value>>>)
    requires pos <= |buf|
    ensures Moved(buf, pos, r, 0)
    ensures WfPairs(acc) && r.Ok? ==> WfPairs(r.val)
    decreases |buf| - pos, 1
  {
    if n == 0 then Ok(pos, acc) else
    match GetText(buf, pos)
    case Fail(p, b) => Fail(p, b)
    case Ok(p, k) =>
      match GetValue(buf, p)
      case Fail(q, b) => Fail(q, b)
      case Ok(q, v) => GetPairs(buf, q, n - 1, PairSet(acc, k, v))
  }

  ghost predicate WfItems(vs: seq<Value>) { forall i :: 0 <= i < |vs| ==> Wf(vs[i]) }

  ghost predicate WfPairs(ps: seq<Pair<Value>>) {
    && Dicts.Sorted(ps)
    && forall i :: 0 <= i < |ps| ==> Utf8.Valid(ps[i].key) && Wf(ps[i].val)
  }

  /** xmmsv_dict_set refuses a null value, and a key that is not UTF-8. */
  function PairSet(ps: seq<Pair<Value>>, k: Text, v: Option<Value>): (r: seq<Pair<Value>>)
    ensures WfPairs(ps) && (v.Some? ==> Wf(v.value)) ==> WfPairs(r)
  {
    if v.Some? && Utf8.Valid(k) then
      assert WfPairs(ps) && Wf(v.value) ==> WfPairs(Dicts.Set(ps, k, v.value)) by {
        if WfPairs(ps) && Wf(v.value) { PairSetWf(ps, k, v.value); }
      }
      Dicts.Set(ps, k, v.value)
    else
      ps
  }

  /** On the map: an update when there is a value and the key is UTF-8, and nothing otherwise. */
  lemma PairSetIsUpdate(ps: seq<Pair<Value>>, k: Text, v: Option<Value>)
    requires Dicts.Sorted(ps)
    ensures Dicts.Sorted(PairSet(ps, k, v))
    ensures Dicts.ToMap(PairSet(ps, k, v)) ==
      if v.Some? && Utf8.Valid(k) then Dicts.ToMap(ps)[k := v.value] else Dicts.ToMap(ps)
  {
    hide Utf8.Valid, Dicts.Set, Dicts.ToMap;
    if v.Some? { Dicts.SetIsMapUpdate(ps, k, v.value); }
  }

  lemma PairSetWf(ps: seq<Pair<Value>>, k: Text, v: Value)
    requires WfPairs(ps) && Utf8.Valid(k) && Wf(v)
    ensures WfPairs(Dicts.Set(ps, k, v))
  {
    Dicts.SetIsMapUpdate(ps, k, v);
    var r := Dicts.Set(ps, k, v);
    forall i | 0 <= i < |r| ensures Utf8.Valid(r[i].key) && Wf(r[i].val) {
      assert r[i] in r;
    }
  }

  // ---------------------------------------------------------------- where the decoder breaks

  /** Where the k-th of a row of attributes starts, if those before it can be read. */
  function AttrStart(buf: seq<byte>, pos: nat, k: nat): (r: Option<nat>)
    requires pos <= |buf|
    ensures r.Some? ==> pos <= r.value <= |buf|
    decreases k
  {
    if k == 0 then Some(pos) else
    match GetText(buf, pos)
    case Fail(_, _) => None
    case Ok(p, _) =>
      match GetText(buf, p)
      case Fail(_, _) => None
      case Ok(q, _) => AttrStart(buf, q, k - 1)
  }

  /** The k-th attribute can be read and its value is UTF-8. */
  predicate ValidAttr(buf: seq<byte>, pos: nat, k: nat)
    requires pos <= |buf|
  {
    var start := AttrStart(buf, pos, k);
    start.Some? &&
    match GetText(buf, start.value)
    case Fail(_, _) => false
    case Ok(p, _) =>
      match GetText(buf, p)
      case Fail(_, _) => false
      case Ok(_, v) => Utf8.Valid(v)
  }

  ghost predicate SomeValidAttr(buf: seq<byte>, pos: nat, n: nat)
    requires pos <= |buf|
  {
    exists k :: 0 <= k < n && ValidAttr(buf, pos, k)
  }

  lemma {:induction false} AttrsBreak(buf: seq<byte>, pos: nat, n: nat, acc: seq<Pair<Text>>, isNull: bool)
    requires pos <= |buf|
    ensures Broken(GetAttrs(buf, pos, n, acc, isNull)) <==> isNull && SomeValidAttr(buf, pos, n)
    decreases n
  {
    hide GetText, AttrSet, WfAttrs, Utf8.Valid;
    if n > 0 && GetText(buf, pos).Ok? && GetText(buf, GetText(buf, pos).pos).Ok? {
      var k, second := GetText(buf, pos).val, GetText(buf, GetText(buf, pos).pos);
      var q, v := second.pos, second.val;
      AttrsBreak(buf, q, n - 1, AttrSet(acc, k, v), isNull);
      assert ValidAttr(buf, pos, 0) <==> Utf8.Valid(v);
      assert forall i :: 0 < i < n ==> AttrStart(buf, pos, i) == AttrStart(buf, q, i - 1);
      if i :| 0 <= i < n - 1 && ValidAttr(buf, q, i) { assert ValidAttr(buf, pos, i + 1); }
      if i :| 0 <= i < n && ValidAttr(buf, pos, i) && i > 0 { assert ValidAttr(buf, q, i - 1); }
    } else if n > 0 {
      forall i | 0 <= i < n ensures !ValidAttr(buf, pos, i) { }
    }
  }

  /** A collection header with a type above the last one, and among its attributes one whose value is UTF-8. */
  ghost predicate NullHeader(buf: seq<byte>, pos: nat) {
    && pos + 8 <= |buf|
    && U32At(buf, pos) > TYPE_LAST
    && SomeValidAttr(buf, pos + 8, U32At(buf, pos + 4))
  }

  /** Where the operands of a collection start, if what precedes them can be read. */
  function OperandsStart(buf: seq<byte>, pos: nat): (r: Option<(nat, uint32)>)
    requires pos <= |buf|
    ensures r.Some? ==> pos < r.value.0 <= |buf|
  {
    if pos + 8 > |buf| then None else
    match GetAttrs(buf, pos + 8, U32At(buf, pos + 4), [], U32At(buf, pos) > TYPE_LAST)
    case Fail(_, _) => None
    case Ok(p, _) =>
      if p + 4 > |buf| then None else
      match GetIds(buf, p + 4, U32At(buf, p))
      case Fail(_, _) => None
      case Ok(q, _) => if q + 4 > |buf| then None else Some((q + 4, U32At(buf, q)))
  }

  /** A collection breaks at its own header, or in its operands. */
  lemma CollBreaks(buf: seq<byte>, pos: nat)
    requires pos <= |buf|
    ensures Broken(GetColl(buf, pos)) <==>
      NullHeader(buf, pos) || (OperandsStart(buf, pos).Some? &&
        Broken(GetOperands(buf, OperandsStart(buf, pos).value.0, OperandsStart(buf, pos).value.1)))
  {
    hide GetAttrs, GetIds, GetOperands, WfColl, WfAttrs, UntilZero, SomeValidAttr, U32At;
    if pos + 8 <= |buf| {
      AttrsBreak(buf, pos + 8, U32At(buf, pos + 4), [], U32At(buf, pos) > TYPE_LAST);
    }
  }

  // The offsets at which the decoder reads the header of a collection.

  ghost function CollHeads(buf: seq<byte>, pos: nat): (r: set<nat>)
    requires pos <= |buf|
    ensures forall q :: q in r ==> pos <= q
    decreases |buf| - pos, 0
  {
    match OperandsStart(buf, pos)
    case None => {pos}
    case Some((p, n)) => {pos} + OperandHeads(buf, p, n)
  }

  ghost function OperandHeads(buf: seq<byte>, pos: nat, n: nat): (r: set<nat>)
    requires pos <= |buf|
    ensures forall q :: q in r ==> pos <= q
    decreases |buf| - pos, 1
  {
    if n == 0 || pos + 4 > |buf| || U32At(buf, pos) != 4 then {} else
    var c := GetColl(buf, pos + 4);
    CollHeads(buf, pos + 4) + if c.Ok? then OperandHeads(buf, c.pos, n - 1) else {}
  }

  ghost function ValueHeads(buf: seq<byte>, pos: nat): (r: set<nat>)
    requires pos <= |buf|
    ensures forall q :: q in r ==> pos <= q
    decreases |buf| - pos, 0
  {
    if pos + 4 > |buf| then {}
    else if U32At(buf, pos) == 4 then CollHeads(buf, pos + 4)
    else if pos + 8 > |buf| then {}
    else if U32At(buf, pos) == 6 then ItemHeads(buf, pos + 8, U32At(buf, pos + 4), [])
    else if U32At(buf, pos) == 7 then PairHeads(buf, pos + 8, U32At(buf, pos + 4), [])
    else {}
  }

  ghost function ItemHeads(buf: seq<byte>, pos: nat, n: nat, acc: seq<Value>): (r: set<nat>)
    requires pos <= |buf|
    ensures forall q :: q in r ==> pos <= q
    decreases |buf| - pos, 1
  {
    if n == 0 then {} else
    var v := GetValue(buf, pos);
    ValueHeads(buf, pos)
    + if v.Ok? then ItemHeads(buf, v.pos, n - 1, if v.val.Some? then acc + [v.val.value] else acc) else {}
  }

  ghost function PairHeads(buf: seq<byte>, pos: nat, n: nat, acc: seq<Pair<Value>>): (r: set<nat>)
    requires pos <= |buf|
    ensures forall q :: q in r ==> pos <= q
    decreases |buf| - pos, 1
  {
    if n == 0 then {} else
    var k := GetText(buf, pos);
    if !k.Ok? then {} else
    var v := GetValue(buf, k.pos);
    ValueHeads(buf, k.pos)
    + if v.Ok? then PairHeads(buf, v.pos, n - 1, PairSet(acc, k.val, v.val)) else {}
  }

  ghost predicate NullAmong(buf: seq<byte>, heads: set<nat>) { exists q :: q in heads && NullHeader(buf, q) }

  lemma NullInUnion(buf: seq<byte>, a: set<nat>, b: set<nat>)
    ensures NullAmong(buf, a + b) <==> NullAmong(buf, a) || NullAmong(buf, b)
    ensures !NullAmong(buf, {})
  {
  }

  lemma NullAlone(buf: seq<byte>, q: nat)
    ensures NullAmong(buf, {q}) <==> NullHeader(buf, q)
  {
    assert q in {q};
  }

  /** Decoding a collection uses a null one exactly when a header that is read is of that kind. */
  lemma {:induction false} CollBreaksExactly(buf: seq<byte>, pos: nat)
    requires pos <= |buf|
    ensures Broken(GetColl(buf, pos)) <==> NullAmong(buf, CollHeads(buf, pos))
    decreases |buf| - pos, 0
  {
    hide GetColl, GetOperands, NullHeader, NullAmong, OperandHeads;
    CollBreaks(buf, pos);
    NullAlone(buf, pos);
    match OperandsStart(buf, pos)
    case None =>
    case Some((p, n)) =>
      OperandsBreakExactly(buf, p, n);
      NullInUnion(buf, {pos}, OperandHeads(buf, p, n));
  }

  lemma {:induction false} OperandsBreakExactly(buf: seq<byte>, pos: nat, n: nat)
    requires pos <= |buf|
    ensures Broken(GetOperands(buf, pos, n)) <==> NullAmong(buf, OperandHeads(buf, pos, n))
    decreases |buf| - pos, 1
  {
    hide GetColl, NullHeader, NullAmong, CollHeads, WfColl, U32At;
    NullInUnion(buf, {}, {});
    if n > 0 && pos + 4 <= |buf| && U32At(buf, pos) == 4 {
      var c := GetColl(buf, pos + 4);
      CollBreaksExactly(buf, pos + 4);
      var rest := if c.Ok? then OperandHeads(buf, c.pos, n - 1) else {};
      NullInUnion(buf, CollHeads(buf, pos + 4), rest);
      if c.Ok? { OperandsBreakExactly(buf, c.pos, n - 1); }
    }
  }

  /** Decoding any bytes uses a null collection exactly when a header that is read is of that kind. */
  lemma {:induction false} ValueBreaksExactly(buf: seq<byte>, pos: nat)
    requires pos <= |buf|
    ensures Broken(GetValue(buf, pos)) <==> NullAmong(buf, ValueHeads(buf, pos))
    decreases |buf| - pos, 0
  {
    hide NullAmong, GetColl, GetItems, GetPairs, GetText, GetBytes, U32At, Wf, WfColl, WfItems, WfPairs, CollHeads, ItemHeads, PairHeads;
    NullInUnion(buf, {}, {});
    if pos + 4 <= |buf| {
      match Signed(U32At(buf, pos))
      case 4 => CollBreaksExactly(buf, pos + 4);
      case 6 => if pos + 8 <= |buf| { ItemsBreakExactly(buf, pos + 8, U32At(buf, pos + 4), []); }
      case 7 => if pos + 8 <= |buf| { PairsBreakExactly(buf, pos + 8, U32At(buf, pos + 4), []); }
      case _ =>
    }
  }

  lemma {:induction false} ItemsBreakExactly(buf: seq<byte>, pos: nat, n: nat, acc: seq<Value>)
    requires pos <= |buf|
    ensures Broken(GetItems(buf, pos, n, acc)) <==> NullAmong(buf, ItemHeads(buf, pos, n, acc))
    decreases |buf| - pos, 1
  {
    hide NullAmong, GetValue, ValueHeads, Wf, WfItems;
    NullInUnion(buf, {}, {});
    if n > 0 {
      var v := GetValue(buf, pos);
      ValueBreaksExactly(buf, pos);
      var acc' := if v.Ok? && v.val.Some? then acc + [v.val.value] else acc;
      NullInUnion(buf, ValueHeads(buf, pos), if v.Ok? then ItemHeads(buf, v.pos, n - 1, acc') else {});
      if v.Ok? { ItemsBreakExactly(buf, v.pos, n - 1, acc'); }
    }
  }

  lemma {:induction false} PairsBreakExactly(buf: seq<byte>, pos: nat, n: nat, acc: seq<Pair<Value>>)
    requires pos <= |buf|
    ensures Broken(GetPairs(buf, pos, n, acc)) <==> NullAmong(buf, PairHeads(buf, pos, n, acc))
    decreases |buf| - pos, 1
  {
    hide NullAmong, GetValue, GetText, ValueHeads, Wf, WfPairs, PairSet;
    NullInUnion(buf, {}, {});
    if n > 0 && GetText(buf, pos).Ok? {
      var k := GetText(buf, pos);
      var v := GetValue(buf, k.pos);
      ValueBreaksExactly(buf, k.pos);
      var rest := if v.Ok? then PairHeads(buf, v.pos, n - 1, PairSet(acc, k.val, v.val)) else {};
      NullInUnion(buf, ValueHeads(buf, k.pos), rest);
      if v.Ok? { PairsBreakExactly(buf, v.pos, n - 1, PairSet(acc, k.val, v.val)); }
    }
  }

  /** A check that needs no decoding: without such a header at or behind the cursor nothing breaks. */
  lemma ValueBreaksAhead(buf: seq<byte>, pos: nat)
    requires pos <= |buf| && Broken(GetValue(buf, pos))
    ensures exists q: nat :: pos <= q && NullHeader(buf, q)
  {
    hide GetValue, ValueHeads, NullHeader;
    ValueBreaksExactly(buf, pos);
  }

  /** The shortest kind of input that breaks: a collection of type 12 with one empty attribute. */
  lemma TypeTwelveBreaks(b: seq<byte>)
    requires |b| == 20 && U32At(b, 0) == 4 && U32At(b, 4) == 12 && U32At(b, 8) == 1
    requires U32At(b, 12) == 0 && U32At(b, 16) == 0
    ensures Broken(GetValue(b, 0))
  {
    hide U32At, GetColl;
    assert GetText(b, 12) == Ok(16, []) && GetText(b, 16) == Ok(20, []);
    assert AttrStart(b, 12, 0) == Some(12);
    assert ValidAttr(b, 12, 0);
    assert NullHeader(b, 4);
    CollBreaks(b, 4);
  }

  lemma SuchBytes() returns (b: seq<byte>)
    ensures |b| == 20 && Broken(GetValue(b, 0))
  {
    hide *;
    b := [0, 0, 0, 4, 0, 0, 0, 12, 0, 0, 0, 1, 0, 0, 0, 0, 0, 0, 0, 0];
    WordOf(b, 0, 4);
    WordOf(b, 4, 12);
    WordOf(b, 8, 1);
    WordOf(b, 12, 0);
    WordOf(b, 16, 0);
    TypeTwelveBreaks(b);
  }

  /** A word below 256. */
  lemma WordOf(b: seq<byte>, i: nat, low: byte)
    requires i + 4 <= |b| && b[i] == b[i + 1] == b[i + 2] == 0 && b[i + 3] == low
    ensures U32At(b, i) == low
  {
  }

  // ---------------------------------------------------------------- the ids and their allocation

  /** The words that malloc is asked for: one more than the claimed count, in 32 bits, in a size_t of 64 bits or 32. */
  function IdRoom(n: uint32, wide: bool): nat {
    if wide then Low32(n + 1) else Low32(4 * Low32(n + 1)) / 4
  }

  /** How many words the loop stores: those it can read, and the terminator if it read them all. */
  function IdStores(buf: seq<byte>, pos: nat, n: nat): nat
    requires pos <= |buf|
  {
    var r := GetIds(buf, pos, n);
    (r.pos - pos) / 4 + if r.Ok? then 1 else 0
  }

  /** The loop reads what is there. */
  lemma {:induction false} IdsRead(buf: seq<byte>, pos: nat, n: nat)
    requires pos <= |buf|
    ensures var words := (|buf| - pos) / 4;
            && (GetIds(buf, pos, n).Ok? <==> n <= words)
            && GetIds(buf, pos, n).pos == pos + 4 * (if n <= words then n else words)
    decreases n
  {
    if n > 0 && 4 <= |buf| - pos {
      IdsRead(buf, pos + 4, n - 1);
    }
  }

  /**
   Every store of an id stays inside the allocation if and only if the room did not wrap around, or
   the message ends before the wrapped room is used up.
   */
  lemma IdStoresFit(buf: seq<byte>, pos: nat, n: uint32, wide: bool)
    requires pos <= |buf|
    ensures IdStores(buf, pos, n) <= IdRoom(n, wide) <==>
      n < (if wide then 0xffff_ffff else 0x3fff_ffff) || (|buf| - pos) / 4 <= IdRoom(n, wide)
  {
    IdsRead(buf, pos, n);
  }

  /** A count of 2^32 - 1 gets no room at all, and one word in the message is stored. */
  lemma NoRoomForIds(wide: bool)
    ensures IdRoom(0xffff_ffff, wide) == 0
    ensures IdStores([0, 0, 0, 7], 0, 0xffff_ffff) > IdRoom(0xffff_ffff, wide)
  {
    hide GetIds;
    IdStoresFit([0, 0, 0, 7], 0, 0xffff_ffff, wide);
  }
}
