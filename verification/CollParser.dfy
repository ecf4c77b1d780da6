/**
 The recursive-descent parser of collection queries, over the tokens that the context pass has
 prepared.  Every function returns the tokens left and the collection, or none.
 */
module CollParser {
  import opened Bytes
  import opened Values
  import opened Tokens
  import Dicts
  import Numbers
  import Utf8

  datatype Parsed = Parsed(rest: seq<Token>, coll: Option<Coll>)

  predicate IsSuffix(rest: seq<Token>, ts: seq<Token>) {
    |rest| <= |ts| && rest == ts[|ts| - |rest|..]
  }

  lemma SuffixTrans(a: seq<Token>, b: seq<Token>, c: seq<Token>)
    requires IsSuffix(a, b) && IsSuffix(b, c)
    ensures IsSuffix(a, c)
  {
  }

  lemma SuffixDrop(a: seq<Token>, c: seq<Token>)
    requires IsSuffix(a, c) && a != []
    ensures IsSuffix(a[1..], c)
  {
  }

  /** What the recursion lives on: a collection costs at least one token, and tokens are only dropped. */
  ghost predicate Progress(ts: seq<Token>, r: Parsed) {
    IsSuffix(r.rest, ts) && (r.coll.Some? ==> |r.rest| < |ts|)
  }

  /** coll_next_token */
  function Next(ts: seq<Token>): (r: seq<Token>)
    ensures IsSuffix(r, ts)
  {
    if ts == [] then [] else ts[1..]
  }

  predicate Starts(ts: seq<Token>, ty: TokenType) { ts != [] && ts[0].ty == ty }

  // ---------------------------------------------------------------- building collections

  function Empty(kind: uint32): Coll { Coll(kind, [], [], []) }

  function WithAttr(c: Coll, k: Text, v: Text): Coll { c.(attrs := AttrSet(c.attrs, k, v)) }

  function WithOperand(c: Coll, op: Coll): Coll { c.(operands := c.operands + [op]) }

  /** xmmsv_coll_universe */
  function Universe(): Coll { WithAttr(Empty(REFERENCE), REFERENCE_KEY, ALL_MEDIA) }

  /** A filter on `field` over everything; a value that could not be computed is not set. */
  function Filter(kind: uint32, field: Text, value: Option<Text>, over: Coll): Coll {
    var c := WithAttr(Empty(kind), FIELD, field);
    WithOperand(if value.Some? then WithAttr(c, VALUE, value.value) else c, over)
  }

  // ---------------------------------------------------------------- what was built

  const EVERYTHING: Coll := Coll(REFERENCE, [Dicts.Pair(REFERENCE_KEY, ALL_MEDIA)], [], [])

  function FilterOver(kind: uint32, prop: Text, value: Text, over: Coll): Coll {
    Coll(kind, [Dicts.Pair(FIELD, prop), Dicts.Pair(VALUE, value)], [], [over])
  }

  lemma OneAttr(k: Text, v: Text)
    requires Utf8.Valid(k) && Utf8.Valid(v)
    ensures AttrSet([], k, v) == [Dicts.Pair(k, v)]
  {
  }

  lemma TwoAttrs(k: Text, v: Text, l: Text, w: Text)
    requires Utf8.Valid(k) && Utf8.Valid(v) && Utf8.Valid(l) && Utf8.Valid(w) && Dicts.Less(k, l)
    ensures AttrSet(AttrSet([], k, v), l, w) == [Dicts.Pair(k, v), Dicts.Pair(l, w)]
  {
    OneAttr(k, v);
    Dicts.SetAppends([Dicts.Pair(k, v)], l, w);
  }

  lemma Names()
    ensures Utf8.Valid(FIELD) && Utf8.Valid(VALUE) && Dicts.Less(FIELD, VALUE)
    ensures Utf8.Valid(NAMESPACE) && Utf8.Valid(REFERENCE_KEY) && Dicts.Less(NAMESPACE, REFERENCE_KEY)
    ensures Utf8.Valid(ALL_MEDIA)
  {
    Utf8.AsciiIsValid(FIELD);
    Utf8.AsciiIsValid(VALUE);
    Utf8.AsciiIsValid(NAMESPACE);
    Utf8.AsciiIsValid(REFERENCE_KEY);
    Utf8.AsciiIsValid(ALL_MEDIA);
    assert FIELD[0] == 'f' as int && VALUE[0] == 'v' as int;
    assert NAMESPACE[0] == 'n' as int && REFERENCE_KEY[0] == 'r' as int;
  }

  lemma UniverseIs()
    ensures Universe() == EVERYTHING
  {
    hide Utf8.Valid;
    Names();
    OneAttr(REFERENCE_KEY, ALL_MEDIA);
  }

  lemma FilterBuilt(kind: uint32, prop: Text, value: Text, over: Coll)
    requires Utf8.Valid(prop) && Utf8.Valid(value)
    ensures Filter(kind, prop, Some(value), over) == FilterOver(kind, prop, value, over)
    ensures Filter(kind, prop, None, over) == Coll(kind, [Dicts.Pair(FIELD, prop)], [], [over])
  {
    hide Utf8.Valid;
    Names();
    OneAttr(FIELD, prop);
    TwoAttrs(FIELD, prop, VALUE, value);
  }

  // ---------------------------------------------------------------- sequences

  function IndexOf(t: Text, c: byte): (i: nat)
    ensures i <= |t| && c !in t[..i] && (i < |t| ==> t[i] == c)
  {
    if t == [] || t[0] == c then 0 else
    var i := IndexOf(t[1..], c) + 1;
    assert t[..i] == [t[0]] + t[1..][..i - 1];
    i
  }

  const COMMA: byte := ',' as int

  /** The comma-separated pieces; there is always at least one. */
  function Pieces(t: Text): (ps: seq<Text>)
    ensures ps != []
    decreases |t|
  {
    var i := IndexOf(t, COMMA);
    if i == |t| then [t] else [t[..i]] + Pieces(t[i + 1..])
  }

  /** One piece: n, n-m, n-, -m or -. */
  function Piece(p: Text, field: Text): Coll {
    var d := IndexOf(p, Numbers.MINUS);
    if d == |p| then Filter(EQUALS, field, Some(p), Universe()) else
    var from := if d > 0 then Filter(GREATER, field, Numbers.IntAdd(p[..d], -1), Universe()) else Universe();
    if d + 1 < |p| then Filter(SMALLER, field, Numbers.IntAdd(p[d + 1..], 1), from) else from
  }

  function PieceColls(ps: seq<Text>, field: Text): (cs: seq<Coll>)
    ensures |cs| == |ps|
  {
    if ps == [] then [] else [Piece(ps[0], field)] + PieceColls(ps[1..], field)
  }

  function SequenceColl(t: Text, field: Text): Coll {
    var ps := Pieces(t);
    if |ps| == 1 then Piece(ps[0], field) else Empty(UNION).(operands := PieceColls(ps, field))
  }

  function ParseSequence(ts: seq<Token>, field: Text): (r: Parsed)
    ensures Progress(ts, r)
  {
    if Starts(ts, Integer) || Starts(ts, Sequence) then Parsed(ts[1..], Some(SequenceColl(ts[0].text, field)))
    else Parsed(ts, None)
  }

  // ---------------------------------------------------------------- filters

  /** coll_parse_prop */
  function Prop(ts: seq<Token>): Option<Text> {
    if Starts(ts, PropShort) then
      var t := ts[0].text;
      var long := if t == [] then None else LongName(t[0]);
      Some(if long.Some? then long.value else t)
    else if Starts(ts, PropLong) then Some(ts[0].text)
    else None
  }

  /** coll_parse_strval */
  function StrVal(ts: seq<Token>): Option<Text> {
    if Starts(ts, String) || Starts(ts, Pattern) then Some(ts[0].text) else None
  }

  function UnaryFilter(ts: seq<Token>): (r: Parsed)
    ensures Progress(ts, r)
  {
    if !Starts(ts, FilHas) then Parsed(ts, None) else
    var prop := Prop(ts[1..]);
    if prop.None? then Parsed(ts, None)
    else Parsed(Next(ts[1..]), Some(Filter(HAS, prop.value, None, Universe())))
  }

  /** The operators of a binary filter, and the operand each accepts. */
  function Comparison(op: seq<Token>, operand: seq<Token>): Option<(uint32, Text)> {
    if op == [] || operand == [] then None else
    match op[0].ty
    case FilEquals => if operand[0].ty == String then Some((EQUALS, operand[0].text)) else None
    case FilMatch =>
      var s := StrVal(operand);
      if s.Some? then Some((MATCH, s.value)) else None
    case FilSmaller => if operand[0].ty == Integer then Some((SMALLER, operand[0].text)) else None
    case FilGreater => if operand[0].ty == Integer then Some((GREATER, operand[0].text)) else None
    case _ => None
  }

  function BinaryFilter(ts: seq<Token>): (r: Parsed)
    ensures Progress(ts, r)
  {
    var prop := Prop(ts);
    if prop.None? then Parsed([], None) else
    var op := ts[1..];
    var operand := Next(op);
    var c := Comparison(op, operand);
    Parsed(Next(operand),
           if c.Some? then Some(Filter(c.value.0, prop.value, Some(c.value.1), Universe())) else None)
  }

  function AfterOperator(ts: seq<Token>): (r: seq<Token>)
    ensures IsSuffix(r, ts)
  {
    if Starts(ts, FilEquals) || Starts(ts, FilMatch) then ts[1..] else ts
  }

  function AnyField(kind: uint32, value: Text): Coll {
    var artist := Filter(kind, ARTIST, Some(value), Universe());
    var album := Filter(kind, ALBUM, Some(value), Universe());
    var title := Filter(kind, TITLE, Some(value), Universe());
    Empty(UNION).(operands := [artist, album, title])
  }

  /** A bare string or pattern: one of artist, album and title. */
  function AutoFilter(ts: seq<Token>): (r: Parsed)
    ensures Progress(ts, r)
  {
    var kind := if Starts(ts, FilMatch) || Starts(ts, Pattern) then MATCH else EQUALS;
    var operand := AfterOperator(ts);
    var s := StrVal(operand);
    if s.None? then Parsed(operand, None) else
    assert IsSuffix(operand[1..], ts) by { SuffixDrop(operand, ts); }
    Parsed(operand[1..], Some(AnyField(kind, s.value)))
  }

  const STAR: Text := T("*")

  function ParseFilter(ts: seq<Token>): (r: Parsed)
    ensures Progress(ts, r)
  {
    var u := UnaryFilter(ts);
    if u.coll.Some? then u else
    var b := BinaryFilter(ts);
    if b.coll.Some? then b else
    if Starts(ts, Pattern) && ts[0].text == STAR then Parsed(ts[1..], Some(Universe())) else
    var a := AutoFilter(ts);
    if a.coll.Some? then a else Parsed(ts, None)
  }

  // ---------------------------------------------------------------- references

  const SLASH: byte := '/' as int

  /** "ns/name", or a name in the default namespace; a slash in front names no namespace. */
  function ReferenceColl(t: Text): Coll {
    var i := IndexOf(t, SLASH);
    var ns := if 0 < i < |t| then t[..i] else DEFAULT_NAMESPACE;
    var name := if i == |t| then t else t[i + 1..];
    WithAttr(WithAttr(Empty(REFERENCE), NAMESPACE, ns), REFERENCE_KEY, name)
  }

  function ParseReference(ts: seq<Token>): (r: Parsed)
    ensures Progress(ts, r)
  {
    if Starts(ts, Reference) && Starts(ts[1..], String) then Parsed(ts[2..], Some(ReferenceColl(ts[1].text)))
    else Parsed(ts, None)
  }

  // ---------------------------------------------------------------- operations

  function ParseExpr(ts: seq<Token>): (r: Parsed)
    ensures Progress(ts, r)
    decreases |ts|, 1
  {
    if ts == [] then Parsed(ts, None) else
    var p := ParseSequence(ts, POSITION);
    if p.coll.Some? then p else
    var i := ParseIdSeq(ts);
    if i.coll.Some? then i else
    var f := ParseFilter(ts);
    if f.coll.Some? then f else
    var g := ParseParen(ts);
    if g.coll.Some? then g else
    var n := ParseNot(ts);
    if n.coll.Some? then n else
    var x := ParseReference(ts);
    if x.coll.Some? then x else Parsed(ts, None)
  }

  function ParseIdSeq(ts: seq<Token>): (r: Parsed)
    ensures Progress(ts, r)
  {
    if Starts(ts, SymbolId) then ParseSequence(ts[1..], ID) else Parsed(ts, None)
  }

  function ParseParen(ts: seq<Token>): (r: Parsed)
    ensures Progress(ts, r)
    decreases |ts|, 0
  {
    if !Starts(ts, GroupOpen) then Parsed(ts, None) else
    var e := ParseOperation(ts[1..]);
    SuffixTrans(e.rest, ts[1..], ts);
    if !Starts(e.rest, GroupClose) then Parsed(ts, None)
    else Parsed(e.rest[1..], e.coll)
  }

  function ParseNot(ts: seq<Token>): (r: Parsed)
    ensures Progress(ts, r)
    decreases |ts|, 0
  {
    if !Starts(ts, OpComplement) then Parsed(ts, None) else
    var e := ParseExpr(ts[1..]);
    SuffixTrans(e.rest, ts[1..], ts);
    if e.coll.None? then Parsed(ts, None)
    else Parsed(e.rest, Some(WithOperand(Empty(COMPLEMENT), e.coll.value)))
  }

  function ParseOperation(ts: seq<Token>): (r: Parsed)
    ensures Progress(ts, r)
    decreases |ts|, 4
  {
    AndAppend(ts, None)
  }

  /** Operands are added to the shared operator on the way in; one operand alone is no operation. */
  function AndAppend(ts: seq<Token>, op: Option<Coll>): (r: Parsed)
    ensures Progress(ts, r)
    decreases |ts|, 3
  {
    var first := OrAppend(ts, None);
    if first.coll.None? then Parsed(ts, None) else
    var rest := if Starts(first.rest, OpIntersection) then first.rest[1..] else first.rest;
    var grown := WithOperand(if op.Some? then op.value else Empty(INTERSECTION), first.coll.value);
    var more := AndAppend(rest, Some(grown));
    assert IsSuffix(rest, ts) by {
      if rest != first.rest { SuffixDrop(first.rest, ts); }
    }
    SuffixTrans(more.rest, rest, ts);
    Parsed(more.rest,
           if more.coll.Some? then more.coll
           else if op.None? then first.coll
           else Some(grown))
  }

  function OrAppend(ts: seq<Token>, op: Option<Coll>): (r: Parsed)
    ensures Progress(ts, r)
    decreases |ts|, 2
  {
    var first := ParseExpr(ts);
    if first.coll.None? then Parsed(ts, None) else
    var goesOn := Starts(first.rest, OpUnion);
    if !goesOn && op.None? then first else
    var grown := WithOperand(if op.Some? then op.value else Empty(UNION), first.coll.value);
    if !goesOn then Parsed(first.rest, Some(grown)) else
    var more := OrAppend(first.rest[1..], Some(grown));
    SuffixDrop(first.rest, ts);
    SuffixTrans(more.rest, first.rest[1..], ts);
    Parsed(more.rest, Some(if more.coll.Some? then more.coll.value else grown))
  }

  /** xmmsv_coll_default_parse_build, after the context pass: leftover tokens are a failure. */
  function Build(ts: seq<Token>): Option<Coll> {
    var r := ParseOperation(ts);
    if r.rest != [] then None else r.coll
  }
}
