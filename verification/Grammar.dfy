/**
 What the parser accepts, and nothing else: whatever it builds is the meaning of a phrase that the
 grammar allows, and the phrase's tokens are the tokens it has read.  Operators that a phrase ends
 with are part of the grammar, because the parser swallows them.
 */
module Grammar {
  import opened Bytes
  import opened Values
  import opened Tokens
  import opened CollParser

  /** `seps[i]` are the tokens behind `parts[i]`: an operator or nothing. */
  datatype Phrase =
    | Atom(ts: seq<Token>, c: Coll)
    | Group(open: Token, body: Phrase, close: Token)
    | Negated(mark: Token, body: Phrase)
    | Joined(kind: uint32, parts: seq<Phrase>, seps: seq<seq<Token>>)
    | Trailed(body: Phrase, mark: Token)

  // ---------------------------------------------------------------- what a phrase says

  function Said(p: Phrase): seq<Token>
    decreases p, 1
  {
    match p
    case Atom(ts, _) => ts
    case Group(open, body, close) => [open] + Said(body) + [close]
    case Negated(mark, body) => [mark] + Said(body)
    case Joined(_, parts, seps) => SaidAll(parts, seps)
    case Trailed(body, mark) => Said(body) + [mark]
  }

  function SaidAll(parts: seq<Phrase>, seps: seq<seq<Token>>): seq<Token>
    decreases parts, 0
  {
    if parts == [] || seps == [] then [] else Said(parts[0]) + (seps[0] + SaidAll(parts[1..], seps[1..]))
  }

  function Meaning(p: Phrase): Coll
    decreases p, 1
  {
    match p
    case Atom(_, c) => c
    case Group(_, body, _) => Meaning(body)
    case Negated(_, body) => Coll(COMPLEMENT, [], [], [Meaning(body)])
    case Joined(kind, parts, _) => Coll(kind, [], [], Meanings(parts))
    case Trailed(body, _) => Meaning(body)
  }

  function Meanings(parts: seq<Phrase>): (cs: seq<Coll>)
    ensures |cs| == |parts|
    decreases parts, 0
  {
    if parts == [] then [] else [Meaning(parts[0])] + Meanings(parts[1..])
  }

  // ---------------------------------------------------------------- which phrases there are

  /** The operator, the operand and what they make. */
  predicate Compares(op: Token, operand: Token, kind: uint32) {
    || (op.ty == FilEquals && operand.ty == String && kind == EQUALS)
    || (op.ty == FilMatch && (operand.ty == String || operand.ty == Pattern) && kind == MATCH)
    || (op.ty == FilSmaller && operand.ty == Integer && kind == SMALLER)
    || (op.ty == FilGreater && operand.ty == Integer && kind == GREATER)
  }

  predicate IsText(t: Token) { t.ty == String || t.ty == Pattern }

  predicate IsNumbers(t: Token) { t.ty == Integer || t.ty == Sequence }

  /** One token. */
  predicate One(t: Token, c: Coll) {
    || (IsNumbers(t) && c == SequenceColl(t.text, POSITION))
    || (t == Token(Pattern, STAR) && c == Universe())
    || (t.ty == String && c == AnyField(EQUALS, t.text))
    || (t.ty == Pattern && t.text != STAR && c == AnyField(MATCH, t.text))
  }

  /** An operator and its operand. */
  predicate Two(o: Token, t: Token, c: Coll) {
    || (o.ty == SymbolId && IsNumbers(t) && c == SequenceColl(t.text, ID))
    || (o.ty == FilHas && Prop([t]).Some? && c == Filter(HAS, Prop([t]).value, None, Universe()))
    || (o.ty == FilEquals && IsText(t) && c == AnyField(EQUALS, t.text))
    || (o.ty == FilMatch && IsText(t) && c == AnyField(MATCH, t.text))
    || (o.ty == Reference && t.ty == String && c == ReferenceColl(t.text))
  }

  /** A name, an operator and its operand. */
  predicate Three(n: Token, o: Token, t: Token, c: Coll) {
    Prop([n]).Some? &&
    (|| (Compares(o, t, EQUALS) && c == Filter(EQUALS, Prop([n]).value, Some(t.text), Universe()))
     || (Compares(o, t, MATCH) && c == Filter(MATCH, Prop([n]).value, Some(t.text), Universe()))
     || (Compares(o, t, SMALLER) && c == Filter(SMALLER, Prop([n]).value, Some(t.text), Universe()))
     || (Compares(o, t, GREATER) && c == Filter(GREATER, Prop([n]).value, Some(t.text), Universe())))
  }

  predicate Leaf(ts: seq<Token>, c: Coll) {
    || (|ts| == 1 && One(ts[0], c))
    || (|ts| == 2 && Two(ts[0], ts[1], c))
    || (|ts| == 3 && Three(ts[0], ts[1], ts[2], c))
  }

  predicate Expr(p: Phrase)
    decreases p, 0
  {
    match p
    case Atom(ts, c) => Leaf(ts, c)
    case Group(open, body, close) => open.ty == GroupOpen && close.ty == GroupClose && Operation(body)
    case Negated(mark, body) => mark.ty == OpComplement && Expr(body)
    case _ => false
  }

  /** Behind every operand but the last there is an OR, and maybe behind the last. */
  predicate Ors(parts: seq<Phrase>, seps: seq<seq<Token>>)
    decreases parts
  {
    && parts != [] && |seps| == |parts|
    && Expr(parts[0])
    && (if |parts| == 1 then seps[0] == [] || IsOr(seps[0]) else IsOr(seps[0]) && Ors(parts[1..], seps[1..]))
  }

  predicate IsOr(sep: seq<Token>) { |sep| == 1 && sep[0].ty == OpUnion }

  predicate Disjunction(p: Phrase)
    decreases p, 1
  {
    if p.Joined? then p.kind == UNION && Ors(p.parts, p.seps) && !(|p.parts| == 1 && p.seps[0] == [])
    else Expr(p)
  }

  /** Behind any operand there may be an AND. */
  predicate Ands(parts: seq<Phrase>, seps: seq<seq<Token>>)
    decreases parts
  {
    && |seps| == |parts|
    && (parts == [] ||
        (&& Disjunction(parts[0]) && (seps[0] == [] || (|seps[0]| == 1 && seps[0][0].ty == OpIntersection))
         && Ands(parts[1..], seps[1..])))
  }

  predicate Operation(p: Phrase)
    decreases p, 2
  {
    match p
    case Joined(kind, parts, seps) =>
      if kind == INTERSECTION then |parts| >= 2 && Ands(parts, seps) else Disjunction(p)
    case Trailed(body, mark) => mark.ty == OpIntersection && Disjunction(body)
    case _ => Disjunction(p)
  }

  // ---------------------------------------------------------------- the leaves

  lemma SuffixIs(ts: seq<Token>, n: nat)
    requires n <= |ts|
    ensures ts[..n] + ts[n..] == ts
  {
  }

  lemma FilterSound(ts: seq<Token>) returns (n: nat)
    requires ParseFilter(ts).coll.Some?
    ensures n <= |ts| && ParseFilter(ts).rest == ts[n..] && Leaf(ts[..n], ParseFilter(ts).coll.value)
  {
    hide Filter, Universe, AnyField, SequenceColl;
    if UnaryFilter(ts).coll.Some? {
      n := UnarySound(ts);
    } else if BinaryFilter(ts).coll.Some? {
      n := BinarySound(ts);
    } else if Starts(ts, Pattern) && ts[0].text == STAR {
      n := 1;
      assert ts[..1][0] == ts[0];
    } else {
      n := AutoSound(ts);
    }
  }

  lemma UnarySound(ts: seq<Token>) returns (n: nat)
    requires UnaryFilter(ts).coll.Some?
    ensures n <= |ts| && UnaryFilter(ts).rest == ts[n..] && Leaf(ts[..n], UnaryFilter(ts).coll.value)
  {
    hide Filter, Universe, LongName;
    n := 2;
    assert ts[1..][0] == ts[1] && ts[1..][1..] == ts[2..];
    assert ts[..2][0] == ts[0] && ts[..2][1] == ts[1];
    PropOfFirst(ts[1..]);
  }

  lemma PropOfFirst(ts: seq<Token>)
    requires ts != []
    ensures Prop(ts) == Prop([ts[0]])
  {
  }

  lemma BinarySound(ts: seq<Token>) returns (n: nat)
    requires BinaryFilter(ts).coll.Some?
    ensures n <= |ts| && BinaryFilter(ts).rest == ts[n..] && Leaf(ts[..n], BinaryFilter(ts).coll.value)
  {
    hide Filter, Universe, Prop;
    n := 3;
    PropOfFirst(ts);
    assert ts[1..][1..] == ts[2..] && ts[2..][1..] == ts[3..];
    assert ts[..3][0] == ts[0] && ts[..3][1] == ts[1] && ts[..3][2] == ts[2];
  }

  lemma Front(ts: seq<Token>)
    ensures |ts| >= 1 ==> ts[..1] == [ts[0]]
    ensures |ts| >= 2 ==> ts[..2] == [ts[0], ts[1]] && ts[1..][0] == ts[1] && ts[1..][1..] == ts[2..]
  {
  }

  lemma LeafOne(t: Token, c: Coll)
    requires One(t, c)
    ensures Leaf([t], c)
  {
    hide One;
  }

  lemma LeafTwo(o: Token, t: Token, c: Coll)
    requires Two(o, t, c)
    ensures Leaf([o, t], c)
  {
    hide Two;
  }

  lemma AutoSound(ts: seq<Token>) returns (n: nat)
    requires AutoFilter(ts).coll.Some? && !(Starts(ts, Pattern) && ts[0].text == STAR)
    ensures n <= |ts| && AutoFilter(ts).rest == ts[n..] && Leaf(ts[..n], AutoFilter(ts).coll.value)
  {
    hide AnyField, SequenceColl, ReferenceColl, Filter, Universe, Leaf, STAR, Prop, IsSuffix;
    Front(ts);
    var c := AutoFilter(ts).coll.value;
    if Starts(ts, FilEquals) || Starts(ts, FilMatch) {
      n := 2;
      LeafTwo(ts[0], ts[1], c);
    } else {
      n := 1;
      LeafOne(ts[0], c);
    }
  }

  lemma SequenceSound(ts: seq<Token>) returns (n: nat)
    requires ParseSequence(ts, POSITION).coll.Some?
    ensures n <= |ts| && ParseSequence(ts, POSITION).rest == ts[n..]
    ensures Leaf(ts[..n], ParseSequence(ts, POSITION).coll.value)
  {
    hide SequenceColl, AnyField, Universe, Leaf, POSITION, IsSuffix;
    n := 1;
    Front(ts);
    LeafOne(ts[0], ParseSequence(ts, POSITION).coll.value);
  }

  lemma IdSeqSound(ts: seq<Token>) returns (n: nat)
    requires ParseIdSeq(ts).coll.Some?
    ensures n <= |ts| && ParseIdSeq(ts).rest == ts[n..] && Leaf(ts[..n], ParseIdSeq(ts).coll.value)
  {
    hide SequenceColl, AnyField, Universe, Filter, ReferenceColl, Leaf, ID, IsSuffix;
    n := 2;
    Front(ts);
    LeafTwo(ts[0], ts[1], ParseIdSeq(ts).coll.value);
  }

  lemma ReferenceSound(ts: seq<Token>) returns (n: nat)
    requires ParseReference(ts).coll.Some?
    ensures n <= |ts| && ParseReference(ts).rest == ts[n..] && Leaf(ts[..n], ParseReference(ts).coll.value)
  {
    hide SequenceColl, AnyField, Universe, Filter, ReferenceColl, Leaf, IsSuffix;
    n := 2;
    Front(ts);
    LeafTwo(ts[0], ts[1], ParseReference(ts).coll.value);
  }

  // ---------------------------------------------------------------- the rest

  /** A phrase that was read, and what it means. */
  ghost predicate Reads(p: Phrase, ts: seq<Token>, r: Parsed) {
    r.coll == Some(Meaning(p)) && Said(p) + r.rest == ts
  }

  lemma {:induction false} ExprSound(ts: seq<Token>) returns (p: Phrase)
    requires ParseExpr(ts).coll.Some?
    ensures Expr(p) && Reads(p, ts, ParseExpr(ts))
    decreases |ts|, 1
  {
    hide ParseSequence, ParseIdSeq, ParseFilter, ParseParen, ParseNot, ParseReference, Leaf, IsSuffix;
    if ParseSequence(ts, POSITION).coll.Some? {
      var n := SequenceSound(ts);
      SuffixIs(ts, n);
      p := Atom(ts[..n], ParseExpr(ts).coll.value);
    } else if ParseIdSeq(ts).coll.Some? {
      var n := IdSeqSound(ts);
      SuffixIs(ts, n);
      p := Atom(ts[..n], ParseExpr(ts).coll.value);
    } else if ParseFilter(ts).coll.Some? {
      var n := FilterSound(ts);
      SuffixIs(ts, n);
      p := Atom(ts[..n], ParseExpr(ts).coll.value);
    } else if ParseParen(ts).coll.Some? {
      p := ParenSound(ts);
    } else if ParseNot(ts).coll.Some? {
      p := NotSound(ts);
    } else {
      var n := ReferenceSound(ts);
      SuffixIs(ts, n);
      p := Atom(ts[..n], ParseExpr(ts).coll.value);
    }
  }

  lemma {:induction false} ParenSound(ts: seq<Token>) returns (p: Phrase)
    requires ParseParen(ts).coll.Some?
    ensures Expr(p) && Reads(p, ts, ParseParen(ts))
    decreases |ts|, 0
  {
    hide ParseOperation, Operation, IsSuffix;
    var e := ParseOperation(ts[1..]);
    var body := OperationSound(ts[1..]);
    p := Group(ts[0], body, e.rest[0]);
    assert ts == [ts[0]] + ts[1..] && e.rest == [e.rest[0]] + e.rest[1..];
    assert [ts[0]] + (Said(body) + ([e.rest[0]] + e.rest[1..])) == [ts[0]] + Said(body) + [e.rest[0]] + e.rest[1..];
  }

  lemma {:induction false} NotSound(ts: seq<Token>) returns (p: Phrase)
    requires ParseNot(ts).coll.Some?
    ensures Expr(p) && Reads(p, ts, ParseNot(ts))
    decreases |ts|, 0
  {
    hide ParseExpr, IsSuffix;
    var body := ExprSound(ts[1..]);
    p := Negated(ts[0], body);
    assert ts == [ts[0]] + ts[1..];
    assert [ts[0]] + (Said(body) + ParseExpr(ts[1..]).rest) == [ts[0]] + Said(body) + ParseExpr(ts[1..]).rest;
    assert [] + [Meaning(body)] == [Meaning(body)];
  }

  /** The collection so far with more operands. */
  function Grown(op: Option<Coll>, kind: uint32, cs: seq<Coll>): Coll {
    var base := if op.Some? then op.value else Empty(kind);
    base.(operands := base.operands + cs)
  }

  lemma GrownMore(op: Option<Coll>, kind: uint32, c: Coll, cs: seq<Coll>)
    ensures Grown(Some(WithOperand(if op.Some? then op.value else Empty(kind), c)), kind, cs) == Grown(op, kind, [c] + cs)
    ensures Grown(op, kind, [c]) == WithOperand(if op.Some? then op.value else Empty(kind), c)
  {
    var base := if op.Some? then op.value else Empty(kind);
    assert base.operands + [c] + cs == base.operands + ([c] + cs);
  }

  lemma OneSaid(p: Phrase, sep: seq<Token>)
    ensures SaidAll([p], [sep]) == Said(p) + sep && Meanings([p]) == [Meaning(p)]
  {
    assert [p][1..] == [] && [sep][1..] == [];
    assert SaidAll([], []) == [] && sep + [] == sep;
  }

  lemma MoreSaid(p: Phrase, sep: seq<Token>, parts: seq<Phrase>, seps: seq<seq<Token>>, rest: seq<Token>)
    ensures SaidAll([p] + parts, [sep] + seps) + rest == Said(p) + (sep + (SaidAll(parts, seps) + rest))
    ensures Meanings([p] + parts) == [Meaning(p)] + Meanings(parts)
  {
    hide Said, Meaning;
    assert ([p] + parts)[1..] == parts && ([sep] + seps)[1..] == seps;
    assert (Said(p) + (sep + SaidAll(parts, seps))) + rest == Said(p) + (sep + (SaidAll(parts, seps) + rest));
  }

  lemma {:induction false} OrSound(ts: seq<Token>, op: Option<Coll>) returns (parts: seq<Phrase>, seps: seq<seq<Token>>)
    requires OrAppend(ts, op).coll.Some?
    ensures Ors(parts, seps) && SaidAll(parts, seps) + OrAppend(ts, op).rest == ts
    ensures OrAppend(ts, op).coll.value ==
      if op.None? && |parts| == 1 && seps[0] == [] then Meaning(parts[0]) else Grown(op, UNION, Meanings(parts))
    decreases |ts|, 2
  {
    hide ParseExpr, Said, Meaning, Expr, WithOperand, Grown, IsSuffix, SaidAll;
    var first := ParseExpr(ts);
    var p := ExprSound(ts);
    var base := if op.Some? then op.value else Empty(UNION);
    GrownMore(op, UNION, Meaning(p), []);
    if !Starts(first.rest, OpUnion) {
      parts, seps := [p], [[]];
      OneSaid(p, []);
      assert Said(p) + [] == Said(p);
    } else {
      var bar, tail := first.rest[0], first.rest[1..];
      assert first.rest == [bar] + tail;
      var more := OrAppend(tail, Some(WithOperand(base, Meaning(p))));
      if more.coll.None? {
        parts, seps := [p], [[bar]];
        OneSaid(p, [bar]);
        OrNothing(tail, Some(WithOperand(base, Meaning(p))));
        assert Said(p) + [bar] + tail == Said(p) + ([bar] + tail);
      } else {
        var ps, ss := OrSound(tail, Some(WithOperand(base, Meaning(p))));
        parts, seps := [p] + ps, [[bar]] + ss;
        MoreSaid(p, [bar], ps, ss, more.rest);
        GrownMore(op, UNION, Meaning(p), Meanings(ps));
        assert parts[1..] == ps && seps[1..] == ss;
      }
    }
  }

  lemma OrNothing(ts: seq<Token>, op: Option<Coll>)
    requires OrAppend(ts, op).coll.None?
    ensures OrAppend(ts, op).rest == ts
  {
    hide ParseExpr;
  }

  lemma AndNothing(ts: seq<Token>, op: Option<Coll>)
    requires AndAppend(ts, op).coll.None?
    ensures AndAppend(ts, op).rest == ts
  {
    hide OrAppend;
  }

  /** A disjunction as a phrase of its own. */
  lemma {:induction false} DisjunctionSound(ts: seq<Token>) returns (p: Phrase)
    requires OrAppend(ts, None).coll.Some?
    ensures Disjunction(p) && Reads(p, ts, OrAppend(ts, None))
    decreases |ts|, 3
  {
    hide OrAppend, Ors, IsSuffix;
    var parts, seps := OrSound(ts, None);
    if |parts| == 1 && seps[0] == [] {
      p := parts[0];
      OrsOne(parts, seps);
    } else {
      p := Joined(UNION, parts, seps);
      assert [] + Meanings(parts) == Meanings(parts);
      OrsSome(parts, seps);
    }
  }

  lemma OrsOne(parts: seq<Phrase>, seps: seq<seq<Token>>)
    requires Ors(parts, seps) && |parts| == 1 && seps[0] == []
    ensures Expr(parts[0]) && Disjunction(parts[0]) && SaidAll(parts, seps) == Said(parts[0])
  {
    assert parts == [parts[0]] && seps == [[]];
    OneSaid(parts[0], []);
    assert Said(parts[0]) + [] == Said(parts[0]);
  }

  lemma OrsSome(parts: seq<Phrase>, seps: seq<seq<Token>>)
    requires Ors(parts, seps)
    ensures parts != [] && |seps| == |parts|
  {
  }

  lemma {:induction false} AndSound(ts: seq<Token>, op: Option<Coll>) returns (parts: seq<Phrase>, seps: seq<seq<Token>>)
    requires AndAppend(ts, op).coll.Some?
    ensures parts != [] && Ands(parts, seps) && SaidAll(parts, seps) + AndAppend(ts, op).rest == ts
    ensures AndAppend(ts, op).coll.value ==
      if op.None? && |parts| == 1 then Meaning(parts[0]) else Grown(op, INTERSECTION, Meanings(parts))
    decreases |ts|, 4
  {
    hide OrAppend, Said, Meaning, Disjunction, WithOperand, Grown, IsSuffix, SaidAll, Ands;
    var first := OrAppend(ts, None);
    var p := DisjunctionSound(ts);
    var base := if op.Some? then op.value else Empty(INTERSECTION);
    var sep := if Starts(first.rest, OpIntersection) then [first.rest[0]] else [];
    var tail := if Starts(first.rest, OpIntersection) then first.rest[1..] else first.rest;
    SeparatorFirst(first.rest);
    var grown := WithOperand(base, Meaning(p));
    var more := AndAppend(tail, Some(grown));
    GrownMore(op, INTERSECTION, Meaning(p), []);
    if more.coll.None? {
      parts, seps := [p], [sep];
      OneSaid(p, sep);
      AndNothing(tail, Some(grown));
      Assoc(Said(p), sep, tail);
      AndsOne(p, sep);
    } else {
      var ps, ss := AndSound(tail, Some(grown));
      parts, seps := [p] + ps, [sep] + ss;
      MoreSaid(p, sep, ps, ss, more.rest);
      GrownMore(op, INTERSECTION, Meaning(p), Meanings(ps));
      AndsMore(p, sep, ps, ss);
    }
  }

  lemma SeparatorFirst(ts: seq<Token>)
    ensures Starts(ts, OpIntersection) ==> ts == [ts[0]] + ts[1..]
    ensures ts == [] + ts
  {
  }

  lemma Assoc(a: seq<Token>, b: seq<Token>, c: seq<Token>)
    ensures (a + b) + c == a + (b + c)
  {
  }

  lemma AndsMore(p: Phrase, sep: seq<Token>, parts: seq<Phrase>, seps: seq<seq<Token>>)
    requires Disjunction(p) && (sep == [] || (|sep| == 1 && sep[0].ty == OpIntersection)) && Ands(parts, seps)
    ensures Ands([p] + parts, [sep] + seps)
  {
    hide Disjunction;
    assert ([p] + parts)[1..] == parts && ([sep] + seps)[1..] == seps;
  }

  lemma AndsOne(p: Phrase, sep: seq<Token>)
    requires Disjunction(p) && (sep == [] || (|sep| == 1 && sep[0].ty == OpIntersection))
    ensures Ands([p], [sep])
  {
    hide Disjunction;
    assert [p][1..] == [] && [sep][1..] == [];
    assert Ands([], []);
  }

  lemma DisjunctionIsOperation(p: Phrase)
    requires Disjunction(p)
    ensures Operation(p)
  {
    hide Ors;
    assert p.Trailed? ==> !Expr(p);
  }

  lemma {:induction false} OperationSound(ts: seq<Token>) returns (p: Phrase)
    requires ParseOperation(ts).coll.Some?
    ensures Operation(p) && Reads(p, ts, ParseOperation(ts))
    decreases |ts|, 5
  {
    hide AndAppend, IsSuffix;
    var parts, seps := AndSound(ts, None);
    if |parts| >= 2 {
      p := Joined(INTERSECTION, parts, seps);
      assert [] + Meanings(parts) == Meanings(parts);
    } else {
      OneSaid(parts[0], seps[0]);
      DisjunctionIsOperation(parts[0]);
      assert parts == [parts[0]] && seps == [seps[0]];
      if seps[0] == [] {
        p := parts[0];
        assert Said(p) + [] == Said(p);
      } else {
        p := Trailed(parts[0], seps[0][0]);
        assert seps[0] == [seps[0][0]];
      }
    }
  }

  /** Every collection that the parser builds is the meaning of a phrase of exactly its tokens. */
  lemma AcceptsOnlyPhrases(ts: seq<Token>) returns (p: Phrase)
    requires Build(ts).Some?
    ensures Operation(p) && Said(p) == ts && Meaning(p) == Build(ts).value
  {
    hide ParseOperation, Operation;
    p := OperationSound(ts);
    assert Said(p) + [] == Said(p);
  }
}
