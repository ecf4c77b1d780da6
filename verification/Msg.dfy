/**
 The message object: a growing buffer whose header and payload are written in place, counts that
 are patched afterwards, and a read cursor.  The writer is proved against Wire's encoder and the
 reader against Wire's decoder.
 */
module Msg {
  import opened Bytes
  import opened Values
  import opened Transport
  import Stream
  import Wire

  const DEFAULT_SIZE: nat := 128

  class Message {
    var data: array<byte>
    var getPos: nat
    var size: nat
    var xfered: nat

    /** The buffer is as large as `size` says and holds at least a header. */
    predicate Buffer()
      reads this`data, this`size
    {
      data.Length == size && HEAD_LEN <= size
    }

    /** ntohl of the fourth header word. */
    function Length(): uint32
      reads this`data, this`size, data
      requires Buffer()
    {
      U32At(data[..], 12)
    }

    /** The payload that the header announces fits in the buffer. */
    predicate Whole()
      reads this`data, this`size, data
      ensures Whole() ==> Buffer()
    {
      Buffer() && HEAD_LEN + Length() <= size
    }

    /** A message that is complete in memory, with its cursor inside. */
    predicate Valid()
      reads this, data
    {
      Whole() && getPos <= Length()
    }

    ghost function Payload(): (p: seq<byte>)
      reads this`data, this`size, data
      requires Whole()
      ensures |p| == Length()
    {
      data[..][HEAD_LEN..HEAD_LEN + Length()]
    }

    /** object, cmd and cookie: the header without its length. */
    ghost function Address(): seq<byte>
      reads this`data, this`size, data
      requires Buffer()
    {
      data[..][..12]
    }

    /** xmms_ipc_msg_alloc: the header is zeroed, the rest is not. */
    constructor ()
      ensures Valid() && fresh(data) && Payload() == [] && getPos == 0 && xfered == 0 && size == 128
      ensures Address() == [0, 0, 0, 0, 0, 0, 0, 0, 0, 0, 0, 0]
    {
      hide U32At;
      data := new byte[DEFAULT_SIZE];
      getPos, size, xfered := 0, DEFAULT_SIZE, 0;
      new;
      forall k | 0 <= k < HEAD_LEN { data[k] := 0; }
      ZeroWord(data[..]);
    }

    method SetWord(at: nat, v: uint32)
      requires Buffer() && at + 4 <= size
      modifies data
      ensures Buffer()
      ensures data[..] == old(data[..])[..at] + PutU32(v) + old(data[..])[at + 4..]
    {
      var w := PutU32(v);
      data[at], data[at + 1], data[at + 2], data[at + 3] := w[0], w[1], w[2], w[3];
    }

    /** xmms_ipc_msg_put_data: append, growing by the larger of 128 and the data's own length. */
    method PutData(bytes: seq<byte>) returns (total: uint32)
      requires Valid() && HEAD_LEN + Length() + |bytes| < TWO_32
      modifies this, data
      ensures Valid() && (data == old(data) || fresh(data))
      ensures total == old(Length())
      ensures Payload() == old(Payload()) + bytes
      ensures Address() == old(Address()) && getPos == old(getPos) && xfered == old(xfered)
      ensures size == old(size) + if HEAD_LEN + old(Length()) + |bytes| <= old(size) then 0
                                  else if |bytes| > DEFAULT_SIZE then |bytes| else DEFAULT_SIZE
    {
      hide U32At, PutU32, Payload, Address;
      if Length() + HEAD_LEN + |bytes| > size {
        var more := if |bytes| > DEFAULT_SIZE then |bytes| else DEFAULT_SIZE;
        Realloc(size + more);
      }
      total := Append(bytes);
    }

    /** memcpy behind the payload, then the new length in the header. */
    method Append(bytes: seq<byte>) returns (total: uint32)
      requires Valid() && HEAD_LEN + Length() + |bytes| < TWO_32 && HEAD_LEN + Length() + |bytes| <= size
      modifies data
      ensures Valid() && total == old(Length())
      ensures Payload() == old(Payload()) + bytes && Address() == old(Address())
    {
      hide U32At, PutU32;
      total := Length();
      ghost var was := data[..];
      Copy(HEAD_LEN + total, bytes);
      ghost var mid := data[..];
      SetWord(12, total + |bytes|);
      AppendedPayload(data[..], mid, was, total, bytes, total + |bytes|);
    }

    /** memcpy into the buffer. */
    method Copy(at: nat, bytes: seq<byte>)
      requires Buffer() && at + |bytes| <= size
      modifies data
      ensures Buffer()
      ensures data[..] == old(data[..])[..at] + bytes + old(data[..])[at + |bytes|..]
    {
      forall k | 0 <= k < |bytes| {
        data[at + k] := bytes[k];
      }
    }

    /** realloc to a larger block: the old bytes survive. */
    method Realloc(newSize: nat)
      requires Buffer() && size <= newSize
      modifies this`data, this`size
      ensures Buffer() && size == newSize && fresh(data)
      ensures data[..][..old(size)] == old(data[..])
      ensures Length() == old(Length()) && Address() == old(Address())
      ensures old(Whole()) ==> Whole() && Payload() == old(Payload())
    {
      var block := new byte[newSize];
      forall k | 0 <= k < size {
        block[k] := data[k];
      }
      data, size := block, newSize;
      assert data[..][..old(size)] == old(data[..]);
      if old(Whole()) {
        Prefix(data[..], old(data[..]), HEAD_LEN + old(Length()));
      }
    }

    /** xmms_ipc_msg_store_uint32: overwrite four payload bytes. */
    method StoreU32(offset: nat, v: uint32)
      requires Valid() && offset + 4 <= Length()
      modifies data
      ensures Valid()
      ensures Payload() == old(Payload())[..offset] + PutU32(v) + old(Payload())[offset + 4..]
      ensures Address() == old(Address())
    {
      hide U32At, PutU32;
      ghost var was := data[..];
      SetWord(HEAD_LEN + offset, v);
      StoredWord(data[..], was, HEAD_LEN + offset, PutU32(v), HEAD_LEN + old(Length()));
    }

    method PutUint32(v: uint32) returns (offset: uint32)
      requires Valid() && HEAD_LEN + Length() + 4 < TWO_32
      modifies this, data
      ensures Valid() && (data == old(data) || fresh(data))
      ensures offset == old(Length()) && Payload() == old(Payload()) + PutU32(v)
      ensures Address() == old(Address()) && getPos == old(getPos) && xfered == old(xfered)
    {
      offset := PutData(PutU32(v));
    }

    /** A C string with its terminator, after its length. */
    method PutText(s: Text)
      requires Valid() && HEAD_LEN + Length() + |Wire.EncText(s)| < TWO_32
      modifies this, data
      ensures Valid() && (data == old(data) || fresh(data))
      ensures Payload() == old(Payload()) + Wire.EncText(s)
      ensures Address() == old(Address()) && getPos == old(getPos) && xfered == old(xfered)
    {
      var offset := PutUint32(Low32(|s| + 1));
      offset := PutData(s + [0]);
    }

    method PutBin(d: seq<byte>)
      requires Valid() && HEAD_LEN + Length() + 4 + |d| < TWO_32
      modifies this, data
      ensures Valid() && (data == old(data) || fresh(data))
      ensures Payload() == old(Payload()) + (PutU32(|d|) + d)
      ensures Address() == old(Address()) && getPos == old(getPos) && xfered == old(xfered)
    {
      var offset := PutUint32(|d|);
      offset := PutData(d);
    }

    /** internal_ipc_msg_put_collection: every count is taken before the things counted. */
    method PutColl(c: Coll)
      requires Valid() && HEAD_LEN + Length() + |Wire.EncColl(c)| < TWO_32
      modifies this, data
      ensures Valid() && (data == old(data) || fresh(data))
      ensures Payload() == old(Payload()) + Wire.EncColl(c)
      ensures Address() == old(Address()) && getPos == old(getPos) && xfered == old(xfered)
      decreases c
    {
      hide Whole, Buffer, Length, Payload, Address, PutU32, Wire.EncColl, Wire.EncAttrs, Wire.EncIds, Wire.UntilZero, Wire.EncOperands;
      Wire.EncCollShape(c);
      ghost var ids, ops := Wire.UntilZero(c.ids), Wire.SentOperands(c);
      ghost var start, p0 := Payload(), PutU32(c.kind);
      ghost var p1 := PutU32(Low32(|c.attrs|)) + Wire.EncAttrs(c.attrs);
      ghost var p2 := PutU32(Low32(|ids|)) + Wire.EncIds(ids);
      ghost var p3 := PutU32(Low32(|ops|)) + Wire.EncOperands(ops);
      var offset := PutUint32(c.kind);
      PutAttrs(c.attrs);
      assert Payload() == start + p0 + p1;
      PutIds(c.ids);
      assert Payload() == start + p0 + p1 + p2;
      if c.kind == REFERENCE {
        offset := PutUint32(0);
        Wire.NoOperands();
      } else {
        PutOperands(c.operands);
      }
      assert Payload() == start + p0 + p1 + p2 + p3;
    }

    method PutOperands(cs: seq<Coll>)
      requires Valid() && HEAD_LEN + Length() + 4 + |Wire.EncOperands(cs)| < TWO_32
      modifies this, data
      ensures Valid() && (data == old(data) || fresh(data))
      ensures Payload() == old(Payload()) + (PutU32(Low32(|cs|)) + Wire.EncOperands(cs))
      ensures Address() == old(Address()) && getPos == old(getPos) && xfered == old(xfered)
      decreases cs
    {
      hide Whole, Buffer, Length, Payload, Address, PutU32, Wire.EncColl, Wire.EncOperands;
      ghost var start := Payload();
      var offset := PutUint32(Low32(|cs|));
      ghost var base := Payload();
      for i := 0 to |cs|
        invariant Valid() && (data == old(data) || fresh(data))
        invariant Payload() + Wire.EncOperands(cs[i..]) == base + Wire.EncOperands(cs)
        invariant Address() == old(Address()) && getPos == old(getPos) && xfered == old(xfered)
      {
        ghost var was, op, rest := Payload(), Wire.EncColl(cs[i]), Wire.EncOperands(cs[i + 1..]);
        Wire.EncOperandsFrom(cs, i);
        offset := PutUint32(4);
        PutColl(cs[i]);
        Regroup3(was, PutU32(4), op, rest);
      }
      Wire.EncOperandsFrom(cs, |cs|);
      assert Payload() == start + PutU32(Low32(|cs|)) + Wire.EncOperands(cs);
    }

    method PutAttrs(attrs: seq<Pair<Text>>)
      requires Valid() && HEAD_LEN + Length() + 4 + |Wire.EncAttrs(attrs)| < TWO_32
      modifies this, data
      ensures Valid() && (data == old(data) || fresh(data))
      ensures Payload() == old(Payload()) + (PutU32(Low32(|attrs|)) + Wire.EncAttrs(attrs))
      ensures Address() == old(Address()) && getPos == old(getPos) && xfered == old(xfered)
    {
      hide Whole, Buffer, Length, Payload, Address, PutU32, Wire.EncText, Wire.EncAttrs;
      ghost var start := Payload();
      var offset := PutUint32(Low32(|attrs|));
      ghost var base := Payload();
      for i := 0 to |attrs|
        invariant Valid() && (data == old(data) || fresh(data))
        invariant Payload() + Wire.EncAttrs(attrs[i..]) == base + Wire.EncAttrs(attrs)
        invariant Address() == old(Address()) && getPos == old(getPos) && xfered == old(xfered)
      {
        ghost var was, rest := Payload(), Wire.EncAttrs(attrs[i + 1..]);
        ghost var k, v := Wire.EncText(attrs[i].key), Wire.EncText(attrs[i].val);
        Wire.EncAttrsFrom(attrs, i);
        PutText(attrs[i].key);
        PutText(attrs[i].val);
        Regroup3(was, k, v, rest);
      }
      Wire.EncAttrsFrom(attrs, |attrs|);
      assert Payload() == start + PutU32(Low32(|attrs|)) + Wire.EncAttrs(attrs);
    }

    /** The loop that only counts the ids. */
    method CountIds(ids: seq<uint32>) returns (n: nat)
      ensures n == |Wire.UntilZero(ids)|
    {
      n := 0;
      while n < |ids| && ids[n] != 0
        invariant n <= |ids| && n + |Wire.UntilZero(ids[n..])| == |Wire.UntilZero(ids)|
      {
        assert ids[n..][1..] == ids[n + 1..];
        n := n + 1;
      }
    }

    method PutIds(ids: seq<uint32>)
      requires Valid() && HEAD_LEN + Length() + 4 + |Wire.EncIds(Wire.UntilZero(ids))| < TWO_32
      modifies this, data
      ensures Valid() && (data == old(data) || fresh(data))
      ensures var sent := Wire.UntilZero(ids);
              Payload() == old(Payload()) + (PutU32(Low32(|sent|)) + Wire.EncIds(sent))
      ensures Address() == old(Address()) && getPos == old(getPos) && xfered == old(xfered)
    {
      hide Whole, Buffer, Length, Payload, Address, PutU32;
      ghost var start := Payload();
      var n := CountIds(ids);
      var offset := PutUint32(Low32(n));
      ghost var base := Payload();
      n := 0;
      while n < |ids| && ids[n] != 0
        invariant Valid() && (data == old(data) || fresh(data)) && n <= |ids|
        invariant Payload() + Wire.EncIds(Wire.UntilZero(ids[n..])) == base + Wire.EncIds(Wire.UntilZero(ids))
        invariant Address() == old(Address()) && getPos == old(getPos) && xfered == old(xfered)
      {
        ghost var was, rest := Payload(), Wire.UntilZero(ids[n + 1..]);
        assert ids[n..][1..] == ids[n + 1..];
        assert Wire.UntilZero(ids[n..]) == [ids[n]] + rest;
        assert ([ids[n]] + rest)[1..] == rest;
        offset := PutUint32(ids[n]);
        Regroup2(was, PutU32(ids[n]), Wire.EncIds(rest));
        n := n + 1;
      }
      assert Wire.UntilZero(ids[n..]) == [];
      ghost var sent := Wire.UntilZero(ids);
      assert Payload() == start + PutU32(Low32(|sent|)) + Wire.EncIds(sent);
    }

    /** xmms_ipc_msg_put_value */
    method PutValue(v: Value)
      requires Valid() && HEAD_LEN + Length() + |Wire.EncValue(v)| < TWO_32
      modifies this, data
      ensures Valid() && (data == old(data) || fresh(data))
      ensures Payload() == old(Payload()) + Wire.EncValue(v)
      ensures Address() == old(Address()) && getPos == old(getPos) && xfered == old(xfered)
      decreases v
    {
      hide Whole, Buffer, Length, Payload, Address, PutU32, Wire.EncText, Wire.EncColl, Wire.EncItems, Wire.EncPairs;
      ghost var start := Payload();
      var offset := PutUint32(TypeTag(v));
      match v
      case Nothing =>
      case Error(m) => PutText(m);
      case Int32(i) => offset := PutUint32(Unsigned(i));
      case Str(s) => PutText(s);
      case CollV(c) => PutColl(c);
      case Bin(d) => PutBin(d);
      case List(items) => PutList(items);
      case Dict(pairs) => PutDict(pairs);
      assert Payload() == start + (PutU32(TypeTag(v)) + Wire.EncBody(v));
    }

    /** The real count is stored over the dummy one that stands before `body`. */
    method PatchCount(ghost start: seq<byte>, ghost body: seq<byte>, offset: nat, count: uint32)
      requires Valid() && Payload() == start + PutU32(0) + body && offset == |start|
      modifies data
      ensures Valid() && Payload() == start + (PutU32(count) + body) && Address() == old(Address())
    {
      hide Whole, Buffer, Length, Payload, Address, PutU32;
      StoreU32(offset, count);
      Patched(start, PutU32(0), PutU32(count), body);
    }

    /** A dummy count, the elements, then the real count written over the dummy. */
    method PutList(items: seq<Value>)
      requires Valid() && HEAD_LEN + Length() + 4 + |Wire.EncItems(items)| < TWO_32
      modifies this, data
      ensures Valid() && (data == old(data) || fresh(data))
      ensures Payload() == old(Payload()) + (PutU32(Low32(|items|)) + Wire.EncItems(items))
      ensures Address() == old(Address()) && getPos == old(getPos) && xfered == old(xfered)
      decreases items
    {
      hide Whole, Buffer, Length, Payload, Address, PutU32, Wire.EncValue, Wire.EncItems;
      ghost var start := Payload();
      var offset := PutUint32(0);
      ghost var base := Payload();
      var count: uint32 := 0;
      for i := 0 to |items|
        invariant Valid() && (data == old(data) || fresh(data))
        invariant Payload() + Wire.EncItems(items[i..]) == base + Wire.EncItems(items)
        invariant Address() == old(Address()) && getPos == old(getPos) && xfered == old(xfered)
        invariant count == Low32(i)
      {
        ghost var was, rest := Payload(), Wire.EncItems(items[i + 1..]);
        Wire.EncItemsFrom(items, i);
        PutValue(items[i]);
        Regroup2(was, Wire.EncValue(items[i]), rest);
        count := Low32(count + 1);
      }
      Wire.EncItemsFrom(items, |items|);
      assert Payload() == start + PutU32(0) + Wire.EncItems(items);
      PatchCount(start, Wire.EncItems(items), offset, count);
    }

    method PutDict(pairs: seq<Pair<Value>>)
      requires Valid() && HEAD_LEN + Length() + 4 + |Wire.EncPairs(pairs)| < TWO_32
      modifies this, data
      ensures Valid() && (data == old(data) || fresh(data))
      ensures Payload() == old(Payload()) + (PutU32(Low32(|pairs|)) + Wire.EncPairs(pairs))
      ensures Address() == old(Address()) && getPos == old(getPos) && xfered == old(xfered)
      decreases pairs
    {
      hide Whole, Buffer, Length, Payload, Address, PutU32, Wire.EncValue, Wire.EncText, Wire.EncPairs;
      ghost var start := Payload();
      var offset := PutUint32(0);
      ghost var base := Payload();
      var count: uint32 := 0;
      for i := 0 to |pairs|
        invariant Valid() && (data == old(data) || fresh(data))
        invariant Payload() + Wire.EncPairs(pairs[i..]) == base + Wire.EncPairs(pairs)
        invariant Address() == old(Address()) && getPos == old(getPos) && xfered == old(xfered)
        invariant count == Low32(i)
      {
        ghost var was, rest := Payload(), Wire.EncPairs(pairs[i + 1..]);
        ghost var k, v := Wire.EncText(pairs[i].key), Wire.EncValue(pairs[i].val);
        Wire.EncPairsFrom(pairs, i);
        PutText(pairs[i].key);
        PutValue(pairs[i].val);
        Regroup3(was, k, v, rest);
        count := Low32(count + 1);
      }
      Wire.EncPairsFrom(pairs, |pairs|);
      assert Payload() == start + PutU32(0) + Wire.EncPairs(pairs);
      PatchCount(start, Wire.EncPairs(pairs), offset, count);
    }

    /** xmms_ipc_msg_get_data */
    method GetData(len: nat) returns (ok: bool, bytes: seq<byte>)
      requires Valid()
      modifies this`getPos
      ensures Valid() && Payload() == old(Payload())
      ensures ok == (len <= Length() - old(getPos))
      ensures ok ==> getPos == old(getPos) + len && bytes == Payload()[old(getPos)..getPos]
      ensures !ok ==> getPos == old(getPos)
    {
      if len > Length() - getPos {
        return false, [];
      }
      bytes := data[..][HEAD_LEN + getPos..HEAD_LEN + getPos + len];
      SliceOfSlice(data[..], HEAD_LEN, HEAD_LEN + Length(), getPos, len);
      getPos := getPos + len;
      ok := true;
    }

    method GetUint32() returns (ok: bool, val: uint32)
      requires Valid()
      modifies this`getPos
      ensures Valid() && Payload() == old(Payload())
      ensures var r := Wire.GetU32(Payload(), old(getPos));
              ok == r.Ok? && getPos == r.pos && (ok ==> val == r.val)
    {
      var bytes;
      ok, bytes := GetData(4);
      val := 0;
      if ok {
        ghost var p := Payload();
        val := U32At(bytes, 0);
        assert forall k :: 0 <= k < 4 ==> bytes[k] == p[old(getPos) + k];
      }
    }

    /** xmms_ipc_msg_get_bin_alloc */
    method GetBytes() returns (ok: bool, val: seq<byte>)
      requires Valid()
      modifies this`getPos
      ensures Valid() && Payload() == old(Payload())
      ensures var r := Wire.GetBytes(Payload(), old(getPos));
              ok == r.Ok? && getPos == r.pos && (ok ==> val == r.val)
    {
      hide Whole, Buffer, Length, Payload, U32At;
      var l;
      ok, l := GetUint32();
      if !ok {
        return false, [];
      }
      if l > Length() - getPos {
        return false, [];
      }
      ok, val := GetData(l);
    }

    /** xmms_ipc_msg_get_string_alloc, and what later reads take the bytes for: a C string. */
    method GetText() returns (ok: bool, val: Text)
      requires Valid()
      modifies this`getPos
      ensures Valid() && Payload() == old(Payload())
      ensures var r := Wire.GetText(Payload(), old(getPos));
              ok == r.Ok? && getPos == r.pos && (ok ==> val == r.val)
    {
      hide Whole, Buffer, Length, Payload, Wire.GetBytes;
      var bytes;
      ok, bytes := GetBytes();
      val := if ok then CString(bytes) else [];
    }

    method GetAttrs(n: nat, isNull: bool) returns (ok: bool, broken: bool, val: seq<Pair<Text>>)
      requires Valid()
      modifies this`getPos
      ensures Valid() && Payload() == old(Payload())
      ensures var r := Wire.GetAttrs(Payload(), old(getPos), n, [], isNull);
              ok == r.Ok? && broken == Wire.Broken(r) && getPos == r.pos && (ok ==> val == r.val)
    {
      hide Whole, Buffer, Length, Payload, Wire.GetText, AttrSet, WfAttrs;
      ghost var p := Payload();
      broken, val := false, [];
      for i := 0 to n
        invariant Valid() && Payload() == p
        invariant !broken && Wire.GetAttrs(p, old(getPos), n, [], isNull) == Wire.GetAttrs(p, getPos, n - i, val, isNull)
      {
        var key, v;
        ok, key := GetText();
        if !ok {
          return false, broken, [];
        }
        ok, v := GetText();
        if !ok {
          return false, broken, [];
        }
        if isNull && Utf8.Valid(v) {
          return false, true, [];
        }
        val := AttrSet(val, key, v);
      }
      ok := true;
    }

    method GetIds(n: nat) returns (ok: bool, val: seq<uint32>)
      requires Valid()
      modifies this`getPos
      ensures Valid() && Payload() == old(Payload())
      ensures var r := Wire.GetIds(Payload(), old(getPos), n);
              ok == r.Ok? && getPos == r.pos && (ok ==> val == r.val)
    {
      hide Whole, Buffer, Length, Payload, Wire.GetU32;
      ghost var p := Payload();
      val := [];
      Wire.PrefixedNil(Wire.GetIds(p, getPos, n));
      for i := 0 to n
        invariant Valid() && Payload() == p
        invariant Wire.GetIds(p, old(getPos), n) == Wire.Prefixed(val, Wire.GetIds(p, getPos, n - i))
      {
        var id;
        ok, id := GetUint32();
        if !ok {
          return false, [];
        }
        Wire.PrefixedTwice(val, [id], Wire.GetIds(p, getPos, n - i - 1));
        val := val + [id];
      }
      Wire.PrefixedEmpty(val, getPos);
      ok := true;
    }

    /** xmms_ipc_msg_get_collection_alloc */
    method GetColl() returns (ok: bool, broken: bool, val: Option<Coll>)
      requires Valid()
      modifies this`getPos
      ensures Valid() && Payload() == old(Payload())
      ensures var r := Wire.GetColl(Payload(), old(getPos));
              ok == r.Ok? && broken == Wire.Broken(r) && getPos == r.pos && (ok ==> val == r.val)
      decreases Length() - getPos, 0
    {
      hide Whole, Buffer, Length, Payload, Wire.GetU32, Wire.GetAttrs, Wire.GetIds, Wire.GetOperands, WfAttrs, WfColl, Wire.UntilZero;
      var kind, n;
      broken := false;
      ok, kind := GetUint32();
      if !ok { return false, broken, None; }
      ok, n := GetUint32();
      if !ok { return false, broken, None; }
      var attrs;
      ok, broken, attrs := GetAttrs(n, kind > TYPE_LAST);
      if !ok { return false, broken, None; }
      ok, n := GetUint32();
      if !ok { return false, broken, None; }
      var ids;
      ok, ids := GetIds(n);
      if !ok { return false, broken, None; }
      ok, n := GetUint32();
      if !ok { return false, broken, None; }
      var operands;
      ok, broken, operands := GetOperands(n);
      if !ok { return false, broken, None; }
      val := NewColl(kind);
      if val.Some? {
        val := Some(Coll(kind, attrs, Wire.UntilZero(ids), operands));
      }
    }

    method GetOperands(n: nat) returns (ok: bool, broken: bool, val: seq<Coll>)
      requires Valid()
      modifies this`getPos
      ensures Valid() && Payload() == old(Payload())
      ensures var r := Wire.GetOperands(Payload(), old(getPos), n);
              ok == r.Ok? && broken == Wire.Broken(r) && getPos == r.pos && (ok ==> val == r.val)
      decreases Length() - getPos, 1
    {
      hide Whole, Buffer, Length, Payload, Wire.GetU32, Wire.GetColl, WfColl;
      ghost var p, len := Payload(), Length();
      broken, val := false, [];
      Wire.PrefixedNil(Wire.GetOperands(p, getPos, n));
      for i := 0 to n
        invariant !broken && Valid() && Payload() == p && Length() == len && old(getPos) <= getPos
        invariant Wire.GetOperands(p, old(getPos), n) == Wire.Prefixed(val, Wire.GetOperands(p, getPos, n - i))
      {
        var tag;
        ok, tag := GetUint32();
        if !ok {
          return false, broken, [];
        }
        if tag != 4 {
          return false, broken, [];
        }
        var c;
        ok, broken, c := GetColl();
        if !ok {
          return false, broken, [];
        }
        Wire.PrefixedTwice(val, if c.Some? then [c.value] else [], Wire.GetOperands(p, getPos, n - i - 1));
        if c.Some? {
          val := val + [c.value];
        }
        assert val + [] == val;
      }
      Wire.PrefixedEmpty(val, getPos);
      ok := true;
    }

    /** xmms_ipc_msg_get_value_alloc */
    method GetValue() returns (ok: bool, broken: bool, val: Option<Value>)
      requires Valid()
      modifies this`getPos
      ensures Valid() && Payload() == old(Payload())
      ensures var r := Wire.GetValue(Payload(), old(getPos));
              ok == r.Ok? && broken == Wire.Broken(r) && getPos == r.pos && (ok ==> val == r.val)
      decreases Length() - getPos, 0
    {
      hide Whole, Buffer, Length, Payload, Wire.GetU32, Wire.GetText, Wire.GetBytes, Wire.GetColl, Wire.GetItems, Wire.GetPairs, Wf;
      broken, val := false, None;
      var tag;
      ok, tag := GetUint32();
      if !ok {
        return;
      }
      match Signed(tag)
      case 0 =>
        val := Some(Nothing);
      case 1 =>
        var m;
        ok, m := GetText();
        val := Some(Error(m));
      case 2 =>
        var i;
        ok, i := GetUint32();
        val := Some(Int32(Signed(i)));
      case 3 =>
        var s;
        ok, s := GetText();
        val := NewString(s);
      case 4 =>
        var c;
        ok, broken, c := GetColl();
        val := if c.Some? then Some(CollV(c.value)) else None;
      case 5 =>
        var d;
        ok, d := GetBytes();
        val := Some(Bin(d));
      case 6 =>
        var items;
        ok, broken, items := GetList();
        val := Some(List(items));
      case 7 =>
        var pairs;
        ok, broken, pairs := GetDict();
        val := Some(Dict(pairs));
      case _ =>
        ok := false;
    }

    /** xmmsc_deserialize_list */
    method GetList() returns (ok: bool, broken: bool, val: seq<Value>)
      requires Valid()
      modifies this`getPos
      ensures Valid() && Payload() == old(Payload())
      ensures var r := Wire.GetList(Payload(), old(getPos));
              ok == r.Ok? && broken == Wire.Broken(r) && getPos == r.pos && (ok ==> val == r.val)
      decreases Length() - getPos, 1
    {
      hide Whole, Buffer, Length, Payload, Wire.GetU32, Wire.GetValue, Wf;
      ghost var p, len := Payload(), Length();
      broken, val := false, [];
      var n;
      ok, n := GetUint32();
      if !ok {
        return;
      }
      ghost var start := getPos;
      for i := 0 to n
        invariant !broken && Valid() && Payload() == p && Length() == len && old(getPos) < start <= getPos
        invariant Wire.GetItems(p, start, n, []) == Wire.GetItems(p, getPos, n - i, val)
      {
        var v;
        ok, broken, v := GetValue();
        if !ok {
          return;
        }
        if v.Some? {
          val := val + [v.value];
        }
      }
      ok := true;
    }

    /** xmmsc_deserialize_dict */
    method GetDict() returns (ok: bool, broken: bool, val: seq<Pair<Value>>)
      requires Valid()
      modifies this`getPos
      ensures Valid() && Payload() == old(Payload())
      ensures var r := Wire.GetDict(Payload(), old(getPos));
              ok == r.Ok? && broken == Wire.Broken(r) && getPos == r.pos && (ok ==> val == r.val)
      decreases Length() - getPos, 1
    {
      hide Whole, Buffer, Length, Payload, Wire.GetU32, Wire.GetText, Wire.GetValue, Wire.PairSet, Wf;
      ghost var p, len := Payload(), Length();
      broken, val := false, [];
      var n;
      ok, n := GetUint32();
      if !ok {
        return;
      }
      ghost var start := getPos;
      for i := 0 to n
        invariant !broken && Valid() && Payload() == p && Length() == len && old(getPos) < start <= getPos
        invariant Wire.GetPairs(p, start, n, []) == Wire.GetPairs(p, getPos, n - i, val)
      {
        var key, v;
        ok, key := GetText();
        if !ok {
          return;
        }
        ok, broken, v := GetValue();
        if !ok {
          return;
        }
        val := Wire.PairSet(val, key, v);
      }
      ok := true;
    }

    /** xmms_ipc_msg_set_cookie: the third header word. */
    method SetCookie(cookie: uint32)
      requires Whole()
      modifies data
      ensures Whole() && Payload() == old(Payload())
      ensures Frame() == old(Frame())[..8] + PutU32(cookie) + old(Frame())[12..]
    {
      hide PutU32;
      ghost var was := data[..];
      SetWord(8, cookie);
      CookieWord(data[..], was, PutU32(cookie), HEAD_LEN + old(Length()));
    }

    /** xmms_ipc_msg_set_cmd and xmms_ipc_msg_set_object: the first two header words. */
    method SetAddress(obj: uint32, cmd: uint32)
      requires Valid()
      modifies data
      ensures Valid() && Payload() == old(Payload())
      ensures Address()[..8] == PutU32(obj) + PutU32(cmd) && Address()[8..] == old(Address())[8..]
    {
      hide PutU32;
      ghost var was := data[..];
      SetWord(4, cmd);
      ghost var mid := data[..];
      HeaderWord(mid, was, 4, PutU32(cmd), HEAD_LEN + old(Length()));
      SetWord(0, obj);
      HeaderWord(data[..], mid, 0, PutU32(obj), HEAD_LEN + old(Length()));
      assert data[..][..8] == PutU32(obj) + mid[4..8];
    }

    lemma FrameIsWf()
      requires Whole() && HEAD_LEN + Length() < TWO_32
      ensures Stream.WfFrame(Frame())
    {
      hide BigWord;
      var f, b := Frame(), data[..];
      assert f[12] == b[12] && f[13] == b[13] && f[14] == b[14] && f[15] == b[15];
    }

    lemma FreshIsEmpty()
      requires Buffer() && xfered == 0
      ensures Receiving() && Received() == [] && Stream.Unfinished(Received())
    {
    }

    lemma FrameLength()
      requires Whole()
      ensures |Frame()| == HEAD_LEN + Length()
      ensures Stream.WfFrame(Frame()) ==> HEAD_LEN + Length() < TWO_32
    {
    }

    // -------------------------------------------------------------- transport

    /** The message as it goes over the wire. */
    ghost function Frame(): (f: Stream.Frame)
      reads this`data, this`size, data
      requires Whole()
    {
      data[..][..HEAD_LEN + Length()]
    }

    /** The bytes that have arrived. */
    ghost function Received(): seq<byte>
      reads this`data, this`size, this`xfered, data
      requires Buffer() && xfered <= size
    {
      data[..][..xfered]
    }

    /** A message that is being received. */
    ghost predicate Receiving()
      reads this`data, this`size, this`xfered, data
    {
      Buffer() && xfered <= size && (xfered <= HEAD_LEN || xfered <= Stream.Need(Received()))
    }

    /** xmms_ipc_msg_write_transport */
    method WriteTransport(sock: Socket) returns (full: bool, disco: bool)
      requires Whole() && HEAD_LEN + Length() < TWO_32
      modifies this`xfered, sock`outgoing, sock`last
      ensures old(xfered) >= HEAD_LEN + Length() ==> full && !disco && xfered == old(xfered) && sock.outgoing == old(sock.outgoing)
      ensures old(xfered) < HEAD_LEN + Length() ==>
                && old(xfered) <= xfered <= HEAD_LEN + Length()
                && sock.outgoing == old(sock.outgoing) + Frame()[old(xfered)..xfered]
                && full == (xfered == HEAD_LEN + Length())
                && disco == sock.Down()
                && (disco ==> xfered == old(xfered))
    {
      disco := false;
      var len := Low32(Length() + HEAD_LEN);
      if !(len > xfered) {
        return true, false;
      }
      var io := sock.Write(data[..][xfered..len]);
      match io
      case TryAgain => full := false;
      case Broken => full, disco := false, true;
      case Closed =>
        disco := true;
        full := len == xfered;
      case Moved(n) =>
        assert data[..][xfered..len][..n] == Frame()[xfered..xfered + n];
        xfered := xfered + n;
        full := len == xfered;
    }

    /** How much is wanted in all; the buffer grows to hold it once the header is in. */
    method Wanted() returns (len: nat)
      requires Receiving()
      modifies this`data, this`size
      ensures Receiving() && (data == old(data) || fresh(data)) && Received() == old(Received())
      ensures len == Stream.Need(Received()) && (xfered < len ==> len <= size)
      ensures len == xfered <==> Stream.Complete(Received())
      ensures len == xfered ==> Whole() && Frame() == Received() && Stream.WfFrame(Frame())
    {
      hide Stream.Need, Stream.Complete, U32At;
      len := HEAD_LEN;
      if xfered >= HEAD_LEN {
        HeaderSeen(data[..], xfered);
        len := Low32(len + Length());
        if len > size {
          Realloc(len);
          assert data[..][..xfered] == old(data[..])[..xfered];
        }
      } else {
        ShortPart(Received());
      }
    }

    /** The transport has put `bytes` behind what had arrived before. */
    method Arrive(bytes: seq<byte>)
      requires Receiving() && xfered + |bytes| <= size && xfered + |bytes| <= Stream.Need(Received())
      modifies this`xfered, data
      ensures Receiving() && Received() == old(Received()) + bytes
    {
      hide Stream.Need;
      ghost var got := Received();
      Copy(xfered, bytes);
      xfered := xfered + |bytes|;
      assert Received() == got + bytes;
      NeedStays(got, Received());
    }

    /**
     xmms_ipc_msg_read_transport: reads until the message is complete or the transport has nothing
     more, and not one byte further than the end of the message.
     */
    method ReadTransport(sock: Socket) returns (full: bool, disco: bool)
      requires Receiving()
      modifies this`data, this`size, this`xfered, data, sock`incoming, sock`last
      ensures Receiving() && (data == old(data) || fresh(data))
      ensures Received() + sock.incoming == old(Received()) + old(sock.incoming)
      ensures old(Received()) <= Received()
      ensures full == Stream.Complete(Received()) && (full ==> !disco)
      ensures !full ==> if Stream.Need(Received()) < xfered then !disco else !sock.last.Moved? && disco == sock.Down()
      ensures full ==> Whole() && Frame() == Received() && Stream.WfFrame(Frame())
    {
      hide Stream.Need, Stream.Complete, Length;
      while true
        invariant Receiving() && (data == old(data) || fresh(data))
        invariant Received() + sock.incoming == old(Received()) + old(sock.incoming)
        invariant old(Received()) <= Received()
        decreases |sock.incoming|
      {
        var len := Wanted();
        if xfered == len {
          return true, false;
        }
        if !(xfered < len) {
          return false, false;
        }
        ghost var got, left := Received(), sock.incoming;
        var io, bytes := sock.Read(len - xfered);
        match io
        case TryAgain => return false, false;
        case Broken => return false, true;
        case Closed => return false, true;
        case Moved(n) =>
          Arrive(bytes);
          Regroup2(got, bytes, sock.incoming);
      }
    }
  }

  /** Once the header is in, its length word says how much is wanted. */
  lemma HeaderSeen(block: seq<byte>, n: nat)
    requires HEAD_LEN <= n <= |block|
    ensures var part := block[..n];
            && Stream.Need(part) == Low32(HEAD_LEN + U32At(block, 12))
            && (Stream.Complete(part) <==> n == Stream.Need(part))
            && (Stream.Complete(part) ==> n == HEAD_LEN + U32At(block, 12) && Stream.WfFrame(part))
  {
  }

  lemma CookieWord(now: seq<byte>, was: seq<byte>, w: seq<byte>, end: nat)
    requires |w| == 4 && HEAD_LEN <= end <= |was| && now == was[..8] + w + was[12..]
    ensures U32At(now, 12) == U32At(was, 12) && now[HEAD_LEN..end] == was[HEAD_LEN..end]
    ensures now[..end] == was[..end][..8] + w + was[..end][12..]
  {
    hide BigWord;
    assert now[12] == was[12] && now[13] == was[13] && now[14] == was[14] && now[15] == was[15];
  }

  /** Writing one of the first two header words changes neither the length nor the payload. */
  lemma HeaderWord(now: seq<byte>, was: seq<byte>, at: nat, w: seq<byte>, end: nat)
    requires |w| == 4 && at + 4 <= 8 && HEAD_LEN <= end <= |was| && now == was[..at] + w + was[at + 4..]
    ensures U32At(now, 12) == U32At(was, 12) && now[HEAD_LEN..end] == was[HEAD_LEN..end]
    ensures now[at..at + 4] == w
  {
    hide BigWord;
    assert now[12] == was[12] && now[13] == was[13] && now[14] == was[14] && now[15] == was[15];
  }

  lemma ShortPart(part: seq<byte>)
    requires |part| < HEAD_LEN
    ensures Stream.Need(part) == HEAD_LEN && !Stream.Complete(part)
  {
  }

  lemma NeedStays(was: seq<byte>, now: seq<byte>)
    requires was <= now && |now| <= Stream.Need(was)
    ensures |now| <= HEAD_LEN || |now| <= Stream.Need(now)
  {
    if HEAD_LEN <= |was| {
      hide BigWord;
      assert was[12] == now[12] && was[13] == now[13] && was[14] == now[14] && was[15] == now[15];
      assert U32At(was, 12) == U32At(now, 12);
    }
  }

  /** A longer block that starts with the old one agrees with it on header and payload. */
  lemma Prefix(now: seq<byte>, was: seq<byte>, end: nat)
    requires HEAD_LEN <= end <= |was| <= |now| && now[..|was|] == was
    ensures U32At(now, 12) == U32At(was, 12) && now[..12] == was[..12] && now[HEAD_LEN..end] == was[HEAD_LEN..end]
  {
    assert forall k :: 0 <= k < |was| ==> now[k] == was[k];
  }

  /** A word stored inside the payload leaves the header, and the payload's other bytes. */
  lemma StoredWord(now: seq<byte>, was: seq<byte>, at: nat, w: seq<byte>, end: nat)
    requires HEAD_LEN <= at && at + 4 <= end <= |was| && |w| == 4
    requires now == was[..at] + w + was[at + 4..]
    ensures U32At(now, 12) == U32At(was, 12) && now[..12] == was[..12]
    ensures var p := was[HEAD_LEN..end];
            now[HEAD_LEN..end] == p[..at - HEAD_LEN] + w + p[at - HEAD_LEN + 4..]
  {
  }

  /** Four bytes overwritten in the middle. */
  lemma Patched(start: seq<byte>, dummy: seq<byte>, count: seq<byte>, body: seq<byte>)
    requires |dummy| == |count| == 4
    ensures var p := start + dummy + body;
            p[..|start|] + count + p[|start| + 4..] == start + (count + body)
  {
  }

  lemma SliceOfSlice<T>(s: seq<T>, a: nat, b: nat, i: nat, n: nat)
    requires a <= b <= |s| && i + n <= b - a
    ensures s[a..b][i..i + n] == s[a + i..a + i + n]
  {
    var x, y := s[a..b][i..i + n], s[a + i..a + i + n];
    assert |x| == |y| && forall k :: 0 <= k < n ==> x[k] == y[k];
  }

  lemma Regroup2(a: seq<byte>, b: seq<byte>, c: seq<byte>)
    ensures a + b + c == a + (b + c)
  {
  }

  lemma Regroup3(a: seq<byte>, b: seq<byte>, c: seq<byte>, d: seq<byte>)
    ensures a + b + c + d == a + (b + c + d)
  {
  }

  lemma ZeroWord(h: seq<byte>)
    requires HEAD_LEN <= |h| && forall k :: 0 <= k < HEAD_LEN ==> h[k] == 0
    ensures U32At(h, 12) == 0
  {
  }

  /** Bytes copied behind the payload, then a new length in the fourth header word. */
  lemma AppendedPayload(now: seq<byte>, mid: seq<byte>, was: seq<byte>, total: nat, bytes: seq<byte>, v: uint32)
    requires HEAD_LEN + total + |bytes| <= |was|
    requires mid == was[..HEAD_LEN + total] + bytes + was[HEAD_LEN + total + |bytes|..]
    requires now == mid[..12] + PutU32(v) + mid[16..]
    ensures U32At(now, 12) == v && now[..12] == was[..12]
    ensures now[HEAD_LEN..HEAD_LEN + total + |bytes|] == was[HEAD_LEN..HEAD_LEN + total] + bytes
  {
    hide PutU32, U32At;
    assert now[12..16] == PutU32(v);
    U32AtPut(now, 12, v);
    var a := HEAD_LEN + total;
    assert now[HEAD_LEN..] == mid[16..];
    assert mid[16..] == was[HEAD_LEN..a] + (bytes + was[a + |bytes|..]);
    assert now[HEAD_LEN..a + |bytes|] == mid[16..][..total + |bytes|];
    assert now[..12] == mid[..12];
  }
}
