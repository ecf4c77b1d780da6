/**
 A printer for query trees, and the law that the parser is its inverse.
 */
module Printer {
  import opened Bytes
  import opened Values
  import opened Tokens
  import opened CollParser
  import Dicts
  import Utf8

  datatype Query =
    | Not(q: Query)
    | And(qs: seq<Query>)
    | Or(qs: seq<Query>)
    | Has(prop: Text)
    | Equals(prop: Text, s: Text)
    | Match(prop: Text, s: Text)
    | Smaller(prop: Text, n: Text)
    | Greater(prop: Text, n: Text)
    | Ref(ns: Text, name: Text)
    | Any(s: Text)
    | AnyLike(s: Text)
    | Positions(t: Text)
    | Ids(t: Text)
    | All

  /**
   Operations have two operands at least; text is UTF-8; a namespace is not empty and has no slash; a
   sequence is digits, commas and dashes.
   */
  predicate WfQuery(q: Query)
    decreases q
  {
    match q
    case Not(p) => WfQuery(p)
    case And(qs) => |qs| >= 2 && forall i :: 0 <= i < |qs| ==> WfQuery(qs[i])
    case Or(qs) => |qs| >= 2 && forall i :: 0 <= i < |qs| ==> WfQuery(qs[i])
    case Has(p) => Utf8.Valid(p)
    case Equals(p, s) => Utf8.Valid(p) && Utf8.Valid(s)
    case Match(p, s) => Utf8.Valid(p) && Utf8.Valid(s)
    case Smaller(p, n) => Utf8.Valid(p) && Utf8.Valid(n)
    case Greater(p, n) => Utf8.Valid(p) && Utf8.Valid(n)
    case Ref(ns, name) => Utf8.Valid(ns) && Utf8.Valid(name) && ns != [] && SLASH !in ns
    case Any(s) => Utf8.Valid(s)
    case AnyLike(s) => Utf8.Valid(s)
    case Positions(t) => Jointed(t)
    case Ids(t) => Jointed(t)
    case All => true
  }

  // ---------------------------------------------------------------- the tree a query means

  function FilterColl(kind: uint32, prop: Text, value: Text): Coll {
    FilterOver(kind, prop, value, EVERYTHING)
  }

  /** In one of artist, album and title. */
  function InAny(kind: uint32, s: Text): Coll {
    Coll(UNION, [], [], [FilterColl(kind, ARTIST, s), FilterColl(kind, ALBUM, s), FilterColl(kind, TITLE, s)])
  }

  function ToColl(q: Query): Coll
    decreases q
  {
    match q
    case Not(p) => Coll(COMPLEMENT, [], [], [ToColl(p)])
    case And(qs) => Coll(INTERSECTION, [], [], ToColls(qs))
    case Or(qs) => Coll(UNION, [], [], ToColls(qs))
    case Has(p) => Coll(HAS, [Dicts.Pair(FIELD, p)], [], [EVERYTHING])
    case Equals(p, s) => FilterColl(EQUALS, p, s)
    case Match(p, s) => FilterColl(MATCH, p, s)
    case Smaller(p, n) => FilterColl(SMALLER, p, n)
    case Greater(p, n) => FilterColl(GREATER, p, n)
    case Ref(ns, name) =>
      Coll(REFERENCE, [Dicts.Pair(NAMESPACE, ns), Dicts.Pair(REFERENCE_KEY, name)], [], [])
    case Any(s) => InAny(EQUALS, s)
    case AnyLike(s) => InAny(MATCH, s)
    case Positions(t) => SequenceColl(t, POSITION)
    case Ids(t) => SequenceColl(t, ID)
    case All => EVERYTHING
  }

  function ToColls(qs: seq<Query>): (cs: seq<Coll>)
    ensures |cs| == |qs|
    decreases qs
  {
    if qs == [] then [] else [ToColl(qs[0])] + ToColls(qs[1..])
  }

  // ---------------------------------------------------------------- printing

  /**
   The choices there are in printing a query: whether a MATCH operand is a pattern token, whether a
   lone string has its operator in front, the letter that a property is named by, if it has one, and
   how a reference into the default namespace is given.  In text there are more: which characters of a
   name are left bare instead of escaped, whether a string is quoted or a word, and the operand that
   the context pass makes this one of.  An operation has the choices for its operands.
   */
  datatype Style = Style(pattern: bool, sign: bool, short: Option<byte>, name: seq<bool>, word: Option<seq<bool>>,
                         given: Option<Text>, operands: seq<Place>)

  /** One operand of an operation: whether an AND is written out before it, and how it is printed. */
  datatype Place = Place(written: bool, style: Style)

  const PLAIN: Style := Style(false, false, None, [], None, None, [])

  function First(places: seq<Place>): Place { if places == [] then Place(false, PLAIN) else places[0] }

  function Others(places: seq<Place>): seq<Place> { if places == [] then [] else places[1..] }

  /** The letter names the property: it is short for it, or short for nothing and the name itself. */
  predicate Shorthand(c: byte, p: Text) {
    c != 0 && match LongName(c) case Some(long) => p == long case None => p == [c]
  }

  /** The token is a name of the property. */
  predicate Stands(name: Token, p: Text) {
    || name == Token(PropLong, p)
    || (name.ty == PropShort && |name.text| == 1 && Shorthand(name.text[0], p))
  }

  function Binary(name: Token, op: TokenType, operand: Token): seq<Token> {
    [name, Op(op), operand]
  }

  function NameToken(p: Text, how: Style): (name: Token)
    ensures Stands(name, p)
  {
    if how.short.Some? && Shorthand(how.short.value, p) then Token(PropShort, [how.short.value])
    else Token(PropLong, p)
  }

  function PatternToken(s: Text, how: Style): Token { Token(if how.pattern then Pattern else String, s) }

  /** A lone star would be the universe, so it has its operator in front. */
  predicate HasSign(s: Text, how: Style) { how.sign || s == STAR }

  function SequenceToken(t: Text): Token { Token(if Separated(t) then Sequence else Integer, t) }

  /** The default namespace can be left out, or be nothing before the slash. */
  function RefText(ns: Text, name: Text, how: Style): Text {
    var t := if how.given.Some? then how.given.value else [];
    if ns == DEFAULT_NAMESPACE && how.given.Some? && (t == [SLASH] + name || (t == name && SLASH !in name)) then t
    else ns + [SLASH] + name
  }

  /** A query as an operand: operations go in parentheses. */
  function PrintExpr(q: Query, how: Style): (ts: seq<Token>)
    decreases q, 1
  {
    match q
    case Not(p) => [Op(OpComplement)] + PrintExpr(p, how)
    case And(qs) => [Op(GroupOpen)] + (PrintAnd(qs, how.operands) + [Op(GroupClose)])
    case Or(qs) => [Op(GroupOpen)] + (PrintOr(qs, how.operands) + [Op(GroupClose)])
    case Has(p) => [Op(FilHas), NameToken(p, how)]
    case Equals(p, s) => Binary(NameToken(p, how), FilEquals, Token(String, s))
    case Match(p, s) => Binary(NameToken(p, how), FilMatch, PatternToken(s, how))
    case Smaller(p, n) => Binary(NameToken(p, how), FilSmaller, Token(Integer, n))
    case Greater(p, n) => Binary(NameToken(p, how), FilGreater, Token(Integer, n))
    case Ref(ns, name) => [Op(Reference), Token(String, RefText(ns, name, how))]
    case Any(s) => if how.sign then [Op(FilEquals), Token(String, s)] else [Token(String, s)]
    case AnyLike(s) => if HasSign(s, how) then [Op(FilMatch), PatternToken(s, how)] else [Token(Pattern, s)]
    case Positions(t) => [SequenceToken(t)]
    case Ids(t) => [Op(SymbolId), SequenceToken(t)]
    case All => [Token(Pattern, STAR)]
  }

  function PrintAnd(qs: seq<Query>, places: seq<Place>): seq<Token>
    decreases qs, 0
  {
    if qs == [] then [] else
    PrintExpr(qs[0], First(places).style) + (Juncture(qs[1..], Others(places)) + PrintAnd(qs[1..], Others(places)))
  }

  /** What stands before the operands that follow. */
  function Juncture(qs: seq<Query>, places: seq<Place>): seq<Token> {
    if qs != [] && First(places).written then [Op(OpIntersection)] else []
  }

  function PrintOr(qs: seq<Query>, places: seq<Place>): seq<Token>
    decreases qs, 0
  {
    if qs == [] then [] else
    PrintExpr(qs[0], First(places).style) + if |qs| == 1 then [] else [Op(OpUnion)] + PrintOr(qs[1..], Others(places))
  }

  /** A whole query: an operation at the top needs no parentheses. */
  function Print(q: Query, how: Style): seq<Token> {
    match q
    case And(qs) => PrintAnd(qs, how.operands)
    case Or(qs) => PrintOr(qs, how.operands)
    case _ => PrintExpr(q, how)
  }

  // ---------------------------------------------------------------- leaves

  lemma FilterIs(kind: uint32, prop: Text, value: Text)
    requires Utf8.Valid(prop) && Utf8.Valid(value)
    ensures Filter(kind, prop, Some(value), Universe()) == FilterColl(kind, prop, value)
    ensures Filter(kind, prop, None, Universe()) == Coll(kind, [Dicts.Pair(FIELD, prop)], [], [EVERYTHING])
  {
    hide Utf8.Valid, Universe, Filter;
    UniverseIs();
    FilterBuilt(kind, prop, value, EVERYTHING);
  }

  lemma {:induction false} IndexOfFirst(a: Text, c: byte, b: Text)
    requires c !in a && c != 0
    ensures IndexOf(a + [c] + b, c) == |a|
  {
    var t := a + [c] + b;
    if a != [] {
      assert t[1..] == a[1..] + [c] + b;
      IndexOfFirst(a[1..], c, b);
    }
  }

  lemma ReferenceIs(ns: Text, name: Text)
    requires Utf8.Valid(ns) && Utf8.Valid(name) && ns != [] && SLASH !in ns
    ensures ReferenceColl(ns + [SLASH] + name) == ToColl(Ref(ns, name))
  {
    hide Utf8.Valid;
    var t := ns + [SLASH] + name;
    IndexOfFirst(ns, SLASH, name);
    assert t[..|ns|] == ns && t[|ns| + 1..] == name;
    Names();
    TwoAttrs(NAMESPACE, ns, REFERENCE_KEY, name);
  }

  lemma DefaultIsValid()
    ensures Utf8.Valid(DEFAULT_NAMESPACE)
  {
    Utf8.AsciiIsValid(DEFAULT_NAMESPACE);
  }

  lemma ReferenceBuilt(ns: Text, name: Text)
    requires Utf8.Valid(ns) && Utf8.Valid(name)
    ensures WithAttr(WithAttr(Empty(REFERENCE), NAMESPACE, ns), REFERENCE_KEY, name) == ToColl(Ref(ns, name))
  {
    hide Utf8.Valid, AttrSet, NAMESPACE, REFERENCE_KEY;
    Names();
    TwoAttrs(NAMESPACE, ns, REFERENCE_KEY, name);
  }

  /** A name without a slash, or with a slash in front, is in the default namespace. */
  lemma DefaultReferenceIs(name: Text)
    requires Utf8.Valid(name)
    ensures SLASH !in name ==> ReferenceColl(name) == ToColl(Ref(DEFAULT_NAMESPACE, name))
    ensures ReferenceColl([SLASH] + name) == ToColl(Ref(DEFAULT_NAMESPACE, name))
  {
    hide Utf8.Valid, DEFAULT_NAMESPACE, WithAttr, ToColl, IndexOf;
    var t := [SLASH] + name;
    FirstSlash(name);
    assert t[1..] == name;
    DefaultIsValid();
    ReferenceBuilt(DEFAULT_NAMESPACE, name);
  }

  lemma FirstSlash(name: Text)
    ensures SLASH !in name ==> IndexOf(name, SLASH) == |name|
    ensures IndexOf([SLASH] + name, SLASH) == 0
  {
    if IndexOf(name, SLASH) < |name| { assert name[IndexOf(name, SLASH)] in name; }
  }

  lemma RefTextIs(ns: Text, name: Text, how: Style)
    requires WfQuery(Ref(ns, name))
    ensures ReferenceColl(RefText(ns, name, how)) == ToColl(Ref(ns, name))
  {
    hide Utf8.Valid, ReferenceColl, ToColl, DEFAULT_NAMESPACE;
    ReferenceIs(ns, name);
    if ns == DEFAULT_NAMESPACE { DefaultReferenceIs(name); }
  }

  // What each alternative of an expression looks at first.

  lemma NoSequence(ts: seq<Token>, field: Text)
    requires !Starts(ts, Integer) && !Starts(ts, Sequence)
    ensures ParseSequence(ts, field).coll == None
    ensures !Starts(ts, SymbolId) ==> ParseIdSeq(ts).coll == None
  {
    hide SequenceColl;
  }

  predicate FilterStart(ty: TokenType) {
    ty in {FilHas, PropLong, PropShort, Pattern, String, FilEquals, FilMatch}
  }

  lemma NoUnary(ts: seq<Token>)
    requires !Starts(ts, FilHas)
    ensures UnaryFilter(ts).coll == None
  {
  }

  lemma NoBinary(ts: seq<Token>)
    requires !Starts(ts, PropLong) && !Starts(ts, PropShort)
    ensures BinaryFilter(ts).coll == None
  {
  }

  lemma NoAuto(ts: seq<Token>)
    requires !Starts(ts, FilEquals) && !Starts(ts, FilMatch) && !Starts(ts, String) && !Starts(ts, Pattern)
    ensures AutoFilter(ts).coll == None
  {
  }

  lemma NoFilter(ts: seq<Token>)
    requires ts != [] && !FilterStart(ts[0].ty)
    ensures ParseFilter(ts).coll == None
  {
    hide UnaryFilter, BinaryFilter, AutoFilter;
    NoUnary(ts);
    NoBinary(ts);
    NoAuto(ts);
  }

  lemma NoGroup(ts: seq<Token>)
    ensures !Starts(ts, GroupOpen) ==> ParseParen(ts).coll == None
    ensures !Starts(ts, OpComplement) ==> ParseNot(ts).coll == None
    ensures !Starts(ts, Reference) ==> ParseReference(ts).coll == None
  {
    hide ReferenceColl, ParseOperation, ParseExpr;
  }

  /** An expression that starts like a filter is one, if it parses as one. */
  lemma FilterExpr(ts: seq<Token>)
    requires ts != [] && FilterStart(ts[0].ty) && ParseFilter(ts).coll.Some?
    ensures ParseExpr(ts) == ParseFilter(ts)
  {
    hide ParseSequence, ParseIdSeq, ParseFilter, ParseParen, ParseNot, ParseReference;
    NoSequence(ts, POSITION);
  }

  lemma GroupExpr(ts: seq<Token>)
    requires ts != [] && ts[0].ty in {GroupOpen, OpComplement, Reference}
    ensures ts[0].ty == GroupOpen && ParseParen(ts).coll.Some? ==> ParseExpr(ts) == ParseParen(ts)
    ensures ts[0].ty == OpComplement && ParseNot(ts).coll.Some? ==> ParseExpr(ts) == ParseNot(ts)
    ensures ts[0].ty == Reference && ParseReference(ts).coll.Some? ==> ParseExpr(ts) == ParseReference(ts)
  {
    hide ParseSequence, ParseIdSeq, ParseFilter, ParseParen, ParseNot, ParseReference;
    NoSequence(ts, POSITION);
    NoFilter(ts);
    NoGroup(ts);
  }

  lemma NoExpr(ts: seq<Token>)
    requires ts == [] || ts[0].ty == GroupClose
    ensures ParseExpr(ts) == Parsed(ts, None)
  {
    hide ParseSequence, ParseIdSeq, ParseFilter, ParseParen, ParseNot, ParseReference;
    if ts != [] {
      NoSequence(ts, POSITION);
      NoFilter(ts);
      NoGroup(ts);
    }
  }

  lemma StandsFor(ts: seq<Token>, p: Text)
    requires ts != [] && Stands(ts[0], p)
    ensures Prop(ts) == Some(p) && (ts[0].ty == PropLong || ts[0].ty == PropShort)
  {
    hide LongName;
    if ts[0].ty == PropShort { assert ts[0].text == [ts[0].text[0]]; }
  }

  lemma HasIs(ts: seq<Token>, p: Text)
    requires |ts| >= 2 && ts[0].ty == FilHas && Stands(ts[1], p)
    ensures ParseExpr(ts) == Parsed(ts[2..], Some(Filter(HAS, p, None, Universe())))
  {
    hide Filter, Universe, ParseExpr, BinaryFilter, AutoFilter, Stands, Prop;
    assert ts[1..][0] == ts[1] && ts[1..][1..] == ts[2..];
    StandsFor(ts[1..], p);
    FilterExpr(ts);
  }

  lemma HasPrinted(p: Text, name: Token, rest: seq<Token>)
    requires Utf8.Valid(p) && Stands(name, p)
    ensures ParseExpr([Op(FilHas), name] + rest) == Parsed(rest, Some(ToColl(Has(p))))
  {
    hide Utf8.Valid, Filter, Universe, ParseExpr;
    var ts := [Op(FilHas), name] + rest;
    FilterIs(HAS, p, p);
    assert ts[2..] == rest;
    HasIs(ts, p);
  }

  lemma RefPrinted(t: Text, rest: seq<Token>)
    ensures ParseExpr([Op(Reference), Token(String, t)] + rest) == Parsed(rest, Some(ReferenceColl(t)))
  {
    hide Utf8.Valid, ReferenceColl, ParseExpr;
    var ts := [Op(Reference), Token(String, t)] + rest;
    assert ts[1..] == [Token(String, t)] + rest && ts[2..] == rest;
    GroupExpr(ts);
  }

  lemma AnyFieldIs(kind: uint32, s: Text)
    requires Utf8.Valid(s)
    ensures AnyField(kind, s) == InAny(kind, s)
  {
    hide Utf8.Valid, Filter, Universe, FilterColl;
    Utf8.AsciiIsValid(ARTIST);
    Utf8.AsciiIsValid(ALBUM);
    Utf8.AsciiIsValid(TITLE);
    FilterIs(kind, ARTIST, s);
    FilterIs(kind, ALBUM, s);
    FilterIs(kind, TITLE, s);
  }

  lemma AutoIs(ts: seq<Token>, t: Token, kind: uint32, rest: seq<Token>)
    requires t.ty == String || t.ty == Pattern
    requires ts != [] && AfterOperator(ts) == [t] + rest && !(Starts(ts, Pattern) && t.text == STAR)
    requires ts[0] == t || ts[0].ty == FilEquals || ts[0].ty == FilMatch
    requires kind == if Starts(ts, FilMatch) || Starts(ts, Pattern) then MATCH else EQUALS
    ensures ParseExpr(ts) == Parsed(rest, Some(AnyField(kind, t.text)))
  {
    hide AnyField, ParseExpr, ParseFilter, UnaryFilter, BinaryFilter, AfterOperator, STAR;
    assert ([t] + rest)[1..] == rest && ([t] + rest)[0] == t;
    NoUnary(ts);
    NoBinary(ts);
    AutoAlone(ts);
    FilterExpr(ts);
  }

  lemma AutoAlone(ts: seq<Token>)
    requires UnaryFilter(ts).coll == None && BinaryFilter(ts).coll == None && AutoFilter(ts).coll.Some?
    requires !(Starts(ts, Pattern) && ts[0].text == STAR)
    ensures ParseFilter(ts) == AutoFilter(ts)
  {
    hide UnaryFilter, BinaryFilter, AutoFilter;
  }

  /** A lone string or pattern. */
  lemma AlonePrinted(t: Token, rest: seq<Token>)
    requires Utf8.Valid(t.text) && (t.ty == String || (t.ty == Pattern && t.text != STAR))
    ensures ParseExpr([t] + rest) == Parsed(rest, Some(InAny(if t.ty == Pattern then MATCH else EQUALS, t.text)))
  {
    hide Utf8.Valid, AnyField, InAny, ParseExpr, AfterOperator, STAR;
    var ts, kind := [t] + rest, if t.ty == Pattern then MATCH else EQUALS;
    assert ts[0] == t;
    BehindOperator(ts);
    AnyFieldIs(kind, t.text);
    AutoIs(ts, t, kind, rest);
  }

  lemma BehindOperator(ts: seq<Token>)
    requires ts != []
    ensures AfterOperator(ts) == if ts[0].ty == FilEquals || ts[0].ty == FilMatch then ts[1..] else ts
  {
  }

  /** The same with its operator in front. */
  lemma SignedPrinted(op: TokenType, t: Token, rest: seq<Token>)
    requires Utf8.Valid(t.text) && (t.ty == String || t.ty == Pattern) && op in {FilEquals, FilMatch}
    ensures ParseExpr([Op(op), t] + rest) == Parsed(rest, Some(InAny(if op == FilMatch then MATCH else EQUALS, t.text)))
  {
    hide Utf8.Valid, AnyField, InAny, ParseExpr, AfterOperator, STAR;
    var ts, kind := [Op(op), t] + rest, if op == FilMatch then MATCH else EQUALS;
    assert ts[0] == Op(op) && ts[1..] == [t] + rest;
    BehindOperator(ts);
    AnyFieldIs(kind, t.text);
    AutoIs(ts, t, kind, rest);
  }

  lemma SequencePrinted(t: Text, rest: seq<Token>)
    ensures ParseExpr([SequenceToken(t)] + rest) == Parsed(rest, Some(SequenceColl(t, POSITION)))
    ensures ParseExpr([Op(SymbolId), SequenceToken(t)] + rest) == Parsed(rest, Some(SequenceColl(t, ID)))
  {
    hide SequenceColl, ParseFilter, ParseParen, ParseNot, ParseReference, POSITION, ID;
    var ts, us := [SequenceToken(t)] + rest, [Op(SymbolId), SequenceToken(t)] + rest;
    assert ts[1..] == rest && us[1..] == ts;
  }

  lemma AllPrinted(rest: seq<Token>)
    ensures ParseExpr([Token(Pattern, STAR)] + rest) == Parsed(rest, Some(EVERYTHING))
  {
    hide Universe, ParseExpr, AutoFilter, UnaryFilter, BinaryFilter, T, LongName;
    var ts := [Token(Pattern, STAR)] + rest;
    UniverseIs();
    assert ts[1..] == rest;
    NoUnary(ts);
    NoBinary(ts);
    FilterExpr(ts);
  }

  lemma BinaryIs(ts: seq<Token>, prop: Text, kind: uint32)
    requires |ts| >= 3 && Stands(ts[0], prop)
    requires Comparison([ts[1]], [ts[2]]) == Some((kind, ts[2].text))
    ensures ParseExpr(ts) == Parsed(ts[3..], Some(Filter(kind, prop, Some(ts[2].text), Universe())))
  {
    hide Filter, Universe, ParseExpr, AutoFilter, Stands, Prop;
    StandsFor(ts, prop);
    assert ts[1..][0] == ts[1] && ts[1..][1..][0] == ts[2] && ts[1..][1..][1..] == ts[3..];
    assert Comparison(ts[1..], ts[1..][1..]) == Comparison([ts[1]], [ts[2]]);
    NoUnary(ts);
    FilterExpr(ts);
  }

  lemma BinaryPrinted(prop: Text, name: Token, op: TokenType, operand: Token, kind: uint32, rest: seq<Token>)
    requires Stands(name, prop) && Utf8.Valid(prop) && Utf8.Valid(operand.text)
    requires Comparison([Op(op)], [operand]) == Some((kind, operand.text))
    ensures ParseExpr(Binary(name, op, operand) + rest) == Parsed(rest, Some(FilterColl(kind, prop, operand.text)))
  {
    hide Utf8.Valid, Filter, Universe, ParseExpr, Comparison;
    var ts := Binary(name, op, operand) + rest;
    assert ts[3..] == rest;
    FilterIs(kind, prop, operand.text);
    BinaryIs(ts, prop, kind);
  }

  /** The leaves: filters, references and the universe take their own tokens and no more. */
  lemma FilterPrinted(q: Query, how: Style, rest: seq<Token>)
    requires WfQuery(q) && (q.Has? || q.Equals? || q.Match? || q.Smaller? || q.Greater?)
    ensures ParseExpr(PrintExpr(q, how) + rest) == Parsed(rest, Some(ToColl(q)))
  {
    hide Utf8.Valid, ParseExpr, FilterColl, Binary, Stands, NameToken, Shorthand;
    match q
    case Has(p) => HasPrinted(p, NameToken(p, how), rest);
    case Equals(p, s) => BinaryPrinted(p, NameToken(p, how), FilEquals, Token(String, s), EQUALS, rest);
    case Match(p, s) => BinaryPrinted(p, NameToken(p, how), FilMatch, PatternToken(s, how), MATCH, rest);
    case Smaller(p, n) => BinaryPrinted(p, NameToken(p, how), FilSmaller, Token(Integer, n), SMALLER, rest);
    case Greater(p, n) => BinaryPrinted(p, NameToken(p, how), FilGreater, Token(Integer, n), GREATER, rest);
  }

  lemma LeafPrinted(q: Query, how: Style, rest: seq<Token>)
    requires WfQuery(q) && !q.Not? && !q.And? && !q.Or?
    ensures ParseExpr(PrintExpr(q, how) + rest) == Parsed(rest, Some(ToColl(q)))
  {
    hide Utf8.Valid, ParseExpr, FilterColl, InAny, Binary, NameToken, RefText, SequenceToken, SequenceColl;
    match q
    case Ref(ns, name) =>
      RefTextIs(ns, name, how);
      RefPrinted(RefText(ns, name, how), rest);
    case Any(s) =>
      if how.sign {
        SignedPrinted(FilEquals, Token(String, s), rest);
      } else {
        AlonePrinted(Token(String, s), rest);
      }
    case AnyLike(s) =>
      if HasSign(s, how) {
        SignedPrinted(FilMatch, PatternToken(s, how), rest);
      } else {
        AlonePrinted(Token(Pattern, s), rest);
      }
    case Positions(t) => SequencePrinted(t, rest);
    case Ids(t) => SequencePrinted(t, rest);
    case All => AllPrinted(rest);
    case _ => FilterPrinted(q, how, rest);
  }

  // ---------------------------------------------------------------- operations

  /** Where an operation ends: at the end of the tokens, or before a closing parenthesis. */
  predicate Stop(rest: seq<Token>) { rest == [] || rest[0].ty == GroupClose }

  lemma StopParsesNothing(rest: seq<Token>, op: Option<Coll>)
    requires Stop(rest)
    ensures AndAppend(rest, op) == Parsed(rest, None)
  {
    hide ParseExpr;
    NoExpr(rest);
  }

  /** One operand of a conjunction has been read: the rest decides. */
  lemma AndStep(ts: seq<Token>, op: Option<Coll>, tail: seq<Token>, c: Coll, next: seq<Token>)
    requires OrAppend(ts, None) == Parsed(tail, Some(c))
    requires next == if Starts(tail, OpIntersection) then tail[1..] else tail
    ensures var grown := WithOperand(if op.Some? then op.value else Empty(INTERSECTION), c);
            var more := AndAppend(next, Some(grown));
            AndAppend(ts, op)
              == Parsed(more.rest, if more.coll.Some? then more.coll else if op.None? then Some(c) else Some(grown))
  {
    hide OrAppend, WithOperand;
  }

  /** One operand of a disjunction has been read. */
  lemma OrStep(ts: seq<Token>, op: Option<Coll>, tail: seq<Token>, c: Coll)
    requires ParseExpr(ts) == Parsed(tail, Some(c))
    ensures !Starts(tail, OpUnion) && op == None ==> OrAppend(ts, op) == Parsed(tail, Some(c))
    ensures var grown := WithOperand(if op.Some? then op.value else Empty(UNION), c);
            && (!Starts(tail, OpUnion) && op.Some? ==> OrAppend(ts, op) == Parsed(tail, Some(grown)))
            && (Starts(tail, OpUnion) && OrAppend(tail[1..], Some(grown)).coll.Some?
                ==> OrAppend(ts, op) == OrAppend(tail[1..], Some(grown)))
  {
    hide ParseExpr, WithOperand;
  }

  /** No operand is printed starting with a set operator. */
  lemma {:induction false} FirstToken(q: Query, how: Style)
    ensures var ts := PrintExpr(q, how);
            ts != [] && ts[0].ty != OpUnion && ts[0].ty != OpIntersection && ts[0].ty != GroupClose
  {
  }

  lemma FirstOfAnd(qs: seq<Query>, places: seq<Place>)
    ensures var ts := PrintAnd(qs, places);
            if qs == [] then ts == [] else ts != [] && ts[0].ty != OpUnion && ts[0].ty != OpIntersection
  {
    hide PrintExpr;
    if qs != [] {
      FirstToken(qs[0], First(places).style);
      assert PrintAnd(qs, places)[0] == PrintExpr(qs[0], First(places).style)[0];
    }
  }

  /** What follows an operand of a conjunction: an AND, the next operand, or the end. */
  lemma AfterOperand(qs: seq<Query>, places: seq<Place>, rest: seq<Token>)
    requires qs == [] ==> Stop(rest)
    ensures var tail := Juncture(qs, places) + PrintAnd(qs, places) + rest;
            && !Starts(tail, OpUnion)
            && (if Starts(tail, OpIntersection) then tail[1..] else tail) == PrintAnd(qs, places) + rest
  {
    hide PrintExpr, PrintAnd;
    var body := PrintAnd(qs, places);
    FirstOfAnd(qs, places);
    if qs != [] && First(places).written {
      assert ([Op(OpIntersection)] + body + rest)[1..] == body + rest;
    } else {
      assert [] + body + rest == body + rest;
    }
  }

  lemma {:induction false} ExprPrinted(q: Query, how: Style, rest: seq<Token>)
    requires WfQuery(q)
    ensures ParseExpr(PrintExpr(q, how) + rest) == Parsed(rest, Some(ToColl(q)))
    decreases q, 2
  {
    hide ParseExpr, ToColl, PrintAnd, PrintOr;
    match q
    case Not(p) =>
      ExprPrinted(p, how, rest);
      NotParsed(PrintExpr(p, how) + rest);
      assert PrintExpr(q, how) + rest == [Op(OpComplement)] + (PrintExpr(p, how) + rest);
      ToCollNot(p);
    case And(qs) =>
      AndPrinted(qs, how.operands, None, [Op(GroupClose)] + rest);
      ParenParsed(PrintAnd(qs, how.operands), rest, ToColl(q));
    case Or(qs) =>
      OrOperation(qs, how.operands, [Op(GroupClose)] + rest);
      ParenParsed(PrintOr(qs, how.operands), rest, ToColl(q));
    case _ => LeafPrinted(q, how, rest);
  }

  lemma ToCollNot(p: Query)
    ensures ToColl(Not(p)) == Coll(COMPLEMENT, [], [], [ToColl(p)])
  {
  }

  lemma NotParsed(ts: seq<Token>)
    requires ParseExpr(ts).coll.Some?
    ensures ParseExpr([Op(OpComplement)] + ts)
         == Parsed(ParseExpr(ts).rest, Some(Coll(COMPLEMENT, [], [], [ParseExpr(ts).coll.value])))
  {
    hide ParseExpr;
    var all := [Op(OpComplement)] + ts;
    GroupExpr(all);
    assert all[1..] == ts;
    assert [] + [ParseExpr(ts).coll.value] == [ParseExpr(ts).coll.value];
  }

  lemma ParenIs(all: seq<Token>, close: seq<Token>, c: Coll)
    requires Starts(all, GroupOpen) && Starts(close, GroupClose)
    requires ParseOperation(all[1..]) == Parsed(close, Some(c))
    ensures ParseExpr(all) == Parsed(close[1..], Some(c))
  {
    hide ParseExpr, ParseOperation;
    GroupExpr(all);
  }

  lemma ParenParsed(body: seq<Token>, rest: seq<Token>, c: Coll)
    requires ParseOperation(body + ([Op(GroupClose)] + rest)) == Parsed([Op(GroupClose)] + rest, Some(c))
    ensures ParseExpr([Op(GroupOpen)] + (body + [Op(GroupClose)]) + rest) == Parsed(rest, Some(c))
  {
    hide ParseExpr, ParseOperation;
    var all, close := [Op(GroupOpen)] + (body + [Op(GroupClose)]) + rest, [Op(GroupClose)] + rest;
    assert all[1..] == body + close;
    assert close[1..] == rest;
    ParenIs(all, close, c);
  }

  lemma Regroup<X>(a: seq<X>, b: seq<X>, c: seq<X>)
    ensures a + b + c == a + (b + c)
  {
  }

  lemma PrintAndStep(qs: seq<Query>, places: seq<Place>, rest: seq<Token>)
    requires qs != []
    ensures PrintAnd(qs, places) + rest
         == PrintExpr(qs[0], First(places).style) + (Juncture(qs[1..], Others(places)) + PrintAnd(qs[1..], Others(places)) + rest)
    ensures |qs| == 1 ==> PrintAnd(qs[1..], Others(places)) + rest == rest
  {
    hide PrintExpr, Juncture;
    Regroup(PrintExpr(qs[0], First(places).style), Juncture(qs[1..], Others(places)) + PrintAnd(qs[1..], Others(places)), rest);
    if |qs| == 1 {
      assert PrintAnd([], places) + rest == rest;
    }
  }

  /** A conjunction joins the operands that are already in the operator. */
  lemma {:induction false} AndPrinted(qs: seq<Query>, places: seq<Place>, op: Option<Coll>, rest: seq<Token>)
    requires qs != [] && Stop(rest) && forall i :: 0 <= i < |qs| ==> WfQuery(qs[i])
    ensures op == None && |qs| >= 2 ==> ParseOperation(PrintAnd(qs, places) + rest) == Parsed(rest, Some(ToColl(And(qs))))
    ensures op.Some? ==> AndAppend(PrintAnd(qs, places) + rest, op) == Parsed(rest, Some(Join(op.value, qs)))
    decreases qs, 1
  {
    hide ParseExpr, PrintExpr, PrintAnd, Juncture, AndAppend, OrAppend, ToColl, ToColls, WithOperand, Join, First, Others;
    var ts := PrintAnd(qs, places) + rest;
    var tail := Juncture(qs[1..], Others(places)) + PrintAnd(qs[1..], Others(places)) + rest;
    PrintAndStep(qs, places, rest);
    ExprPrinted(qs[0], First(places).style, tail);
    AfterOperand(qs[1..], Others(places), rest);
    var c := ToColl(qs[0]);
    OrStep(ts, None, tail, c);
    var grown := WithOperand(if op.Some? then op.value else Empty(INTERSECTION), c);
    var next := PrintAnd(qs[1..], Others(places)) + rest;
    AndStep(ts, op, tail, c, next);
    if |qs| == 1 {
      StopParsesNothing(rest, Some(grown));
    } else {
      AndPrinted(qs[1..], Others(places), Some(grown), rest);
    }
    JoinStep(if op.Some? then op.value else Empty(INTERSECTION), qs);
    JoinEmpty(INTERSECTION, qs);
  }

  /** The operator with the operands of `qs` behind its own. */
  function Join(op: Coll, qs: seq<Query>): Coll {
    op.(operands := op.operands + ToColls(qs))
  }

  lemma JoinStep(op: Coll, qs: seq<Query>)
    requires qs != []
    ensures Join(op, qs) == Join(WithOperand(op, ToColl(qs[0])), qs[1..])
    ensures |qs| == 1 ==> Join(op, qs) == WithOperand(op, ToColl(qs[0]))
  {
    hide ToColl;
    assert op.operands + ToColls(qs) == op.operands + [ToColl(qs[0])] + ToColls(qs[1..]);
  }

  lemma JoinEmpty(kind: uint32, qs: seq<Query>)
    ensures Join(Empty(kind), qs) == Coll(kind, [], [], ToColls(qs))
    ensures ToColl(And(qs)) == Coll(INTERSECTION, [], [], ToColls(qs))
    ensures ToColl(Or(qs)) == Coll(UNION, [], [], ToColls(qs))
  {
    assert [] + ToColls(qs) == ToColls(qs);
  }

  lemma PrintOrStep(qs: seq<Query>, places: seq<Place>, rest: seq<Token>)
    requires qs != []
    ensures PrintOr(qs, places) + rest
         == PrintExpr(qs[0], First(places).style) + if |qs| == 1 then rest else [Op(OpUnion)] + (PrintOr(qs[1..], Others(places)) + rest)
  {
    hide PrintExpr;
  }

  lemma {:induction false} OrPrinted(qs: seq<Query>, places: seq<Place>, op: Option<Coll>, rest: seq<Token>)
    requires qs != [] && !Starts(rest, OpUnion) && forall i :: 0 <= i < |qs| ==> WfQuery(qs[i])
    requires op.Some? || |qs| >= 2
    ensures OrAppend(PrintOr(qs, places) + rest, op)
         == Parsed(rest, Some(Join(if op.Some? then op.value else Empty(UNION), qs)))
    decreases qs, 0
  {
    hide ParseExpr, PrintExpr, PrintOr, OrAppend, ToColl, ToColls, WithOperand, Join, First, Others;
    var ts := PrintOr(qs, places) + rest;
    var tail := if |qs| == 1 then rest else [Op(OpUnion)] + (PrintOr(qs[1..], Others(places)) + rest);
    PrintOrStep(qs, places, rest);
    ExprPrinted(qs[0], First(places).style, tail);
    OrStep(ts, op, tail, ToColl(qs[0]));
    var base := if op.Some? then op.value else Empty(UNION);
    if |qs| > 1 {
      assert tail[1..] == PrintOr(qs[1..], Others(places)) + rest;
      OrPrinted(qs[1..], Others(places), Some(WithOperand(base, ToColl(qs[0]))), rest);
    }
    JoinStep(base, qs);
  }

  /** A conjunction of one operand is that operand. */
  lemma LoneOperand(ts: seq<Token>, rest: seq<Token>, c: Coll)
    requires OrAppend(ts, None) == Parsed(rest, Some(c)) && Stop(rest)
    ensures ParseOperation(ts) == Parsed(rest, Some(c))
  {
    hide OrAppend, AndAppend, WithOperand;
    AndStep(ts, None, rest, c, rest);
    StopParsesNothing(rest, Some(WithOperand(Empty(INTERSECTION), c)));
  }

  lemma {:induction false} OrOperation(qs: seq<Query>, places: seq<Place>, rest: seq<Token>)
    requires |qs| >= 2 && Stop(rest) && forall i :: 0 <= i < |qs| ==> WfQuery(qs[i])
    ensures ParseOperation(PrintOr(qs, places) + rest) == Parsed(rest, Some(ToColl(Or(qs))))
    decreases qs, 1
  {
    hide ToColl, ToColls, PrintOr, OrAppend, AndAppend, WithOperand, Join;
    OrPrinted(qs, places, None, rest);
    JoinEmpty(UNION, qs);
    LoneOperand(PrintOr(qs, places) + rest, rest, ToColl(Or(qs)));
  }

  // ---------------------------------------------------------------- the inverse

  lemma OneOperand(q: Query, how: Style)
    requires WfQuery(q)
    ensures ParseOperation(PrintExpr(q, how)) == Parsed([], Some(ToColl(q)))
  {
    hide ParseExpr, PrintExpr, ToColl, OrAppend, ParseOperation;
    assert PrintExpr(q, how) + [] == PrintExpr(q, how);
    ExprPrinted(q, how, []);
    OrStep(PrintExpr(q, how), None, [], ToColl(q));
    LoneOperand(PrintExpr(q, how), [], ToColl(q));
  }

  /**
   The parser inverts the printer: every query tree, printed with its ANDs written out or left out
   at any places, is parsed back to exactly that tree, with no token left over.
   */
  lemma ParserInvertsPrinter(q: Query, how: Style)
    requires WfQuery(q)
    ensures ParseOperation(Print(q, how)) == Parsed([], Some(ToColl(q)))
    ensures Build(Print(q, how)) == Some(ToColl(q))
  {
    hide PrintExpr, PrintAnd, PrintOr, ToColl, ParseOperation;
    match q
    case And(qs) =>
      assert PrintAnd(qs, how.operands) + [] == PrintAnd(qs, how.operands);
      AndPrinted(qs, how.operands, None, []);
    case Or(qs) =>
      assert PrintOr(qs, how.operands) + [] == PrintOr(qs, how.operands);
      OrOperation(qs, how.operands, []);
    case _ => OneOperand(q, how);
  }

  /** An AND behind the last operand is swallowed. */
  lemma TrailingAnd(q: Query, how: Style)
    requires WfQuery(q)
    ensures Build(PrintExpr(q, how) + [Op(OpIntersection)]) == Some(ToColl(q))
  {
    hide ParseExpr, PrintExpr, ToColl, OrAppend, AndAppend, WithOperand;
    var ts, tail := PrintExpr(q, how) + [Op(OpIntersection)], [Op(OpIntersection)];
    ExprPrinted(q, how, tail);
    OrStep(ts, None, tail, ToColl(q));
    assert tail[1..] == [];
    AndStep(ts, None, tail, ToColl(q), []);
    StopParsesNothing([], Some(WithOperand(Empty(INTERSECTION), ToColl(q))));
  }

  /** An OR behind the last operand is swallowed too, but leaves a union of that one operand. */
  lemma TrailingOr(q: Query, how: Style)
    requires WfQuery(q)
    ensures Build(PrintExpr(q, how) + [Op(OpUnion)]) == Some(Coll(UNION, [], [], [ToColl(q)]))
  {
    hide ParseExpr, PrintExpr, ToColl;
    var ts, tail := PrintExpr(q, how) + [Op(OpUnion)], [Op(OpUnion)];
    ExprPrinted(q, how, tail);
    assert tail[1..] == [];
    NoExpr([]);
    var c := Coll(UNION, [], [], [ToColl(q)]);
    assert [] + [ToColl(q)] == [ToColl(q)];
    assert OrAppend(ts, None) == Parsed([], Some(c));
    LoneOperand(ts, [], c);
  }

  /** A group that is opened and never closed is no query. */
  lemma ParenMissing(q: Query, how: Style)
    requires WfQuery(q)
    ensures Build([Op(GroupOpen)] + Print(q, how)) == None
  {
    var ts := [Op(GroupOpen)] + Print(q, how);
    assert ts[1..] == Print(q, how);
    ParserInvertsPrinter(q, how);
    NoneInOpen(ts);
  }

  lemma OpenExpr(ts: seq<Token>)
    requires Starts(ts, GroupOpen) && ParseParen(ts).coll == None
    ensures ParseExpr(ts).coll == None
  {
    hide ParseSequence, ParseIdSeq, ParseFilter, ParseParen, ParseNot, ParseReference;
    NoSequence(ts, POSITION);
    NoFilter(ts);
    NoGroup(ts);
  }

  lemma NothingAppended(ts: seq<Token>)
    requires ParseExpr(ts).coll == None
    ensures AndAppend(ts, None) == Parsed(ts, None)
  {
    hide ParseExpr;
    assert OrAppend(ts, None) == Parsed(ts, None);
  }

  lemma NoneWithoutExpr(ts: seq<Token>)
    requires ts != [] && ParseExpr(ts).coll == None
    ensures Build(ts) == None
  {
    hide ParseExpr, AndAppend;
    NothingAppended(ts);
    assert ParseOperation(ts) == AndAppend(ts, None);
  }

  lemma NoneInOpen(ts: seq<Token>)
    requires Starts(ts, GroupOpen) && ParseOperation(ts[1..]).rest == []
    ensures Build(ts) == None
  {
    hide ParseExpr, ParseOperation, Build;
    OpenExpr(ts);
    NoneWithoutExpr(ts);
  }
}
