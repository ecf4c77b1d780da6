/**
 Number sequences such as "1,4-7,12-": the numbers that the built tree matches, and exactly when
 they are the numbers that were written.
 */
module Sequences {
  import opened Bytes
  import opened Values
  import opened Tokens
  import opened CollParser
  import opened Numbers
  import Dicts
  import Utf8

  // ---------------------------------------------------------------- meanings

  /** The attribute, if it is there. */
  function Attr(c: Coll, k: Text): Option<Text> { Dicts.Lookup(c.attrs, k) }

  /** A comparison of `field` with the number in the value; a value that is no number matches nothing. */
  predicate Compares(c: Coll, field: Text, x: int) {
    && Attr(c, FIELD) == Some(field)
    && Attr(c, VALUE).Some?
    && var n := Num(Attr(c, VALUE).value);
       n.Some? && (if c.kind == SMALLER then x < n.value else if c.kind == GREATER then x > n.value else x == n.value)
  }

  /** Does the collection match a medium whose `field` is `x`? */
  predicate Matches(c: Coll, field: Text, x: int)
    decreases c
  {
    if c.kind == UNION then exists i :: 0 <= i < |c.operands| && Matches(c.operands[i], field, x)
    else if c.kind == REFERENCE then c == EVERYTHING
    else
      && (c.kind == SMALLER || c.kind == GREATER || c.kind == EQUALS)
      && Compares(c, field, x)
      && forall i :: 0 <= i < |c.operands| ==> Matches(c.operands[i], field, x)
  }

  function From(p: Text): Text { p[..IndexOf(p, MINUS)] }

  function To(p: Text): Text
    requires IndexOf(p, MINUS) < |p|
  {
    p[IndexOf(p, MINUS) + 1..]
  }

  predicate IsRange(p: Text) { IndexOf(p, MINUS) < |p| }

  /** n, n-m, n-, -m or -, where the bounds of an interval and their neighbours fit an int. */
  predicate WfPiece(p: Text) {
    if IsRange(p) then
      && Digits(From(p)) && Number(From(p)) <= INT_MAX
      && Digits(To(p)) && Number(To(p)) < INT_MAX
    else
      p != [] && Digits(p)
  }

  /** The point or the closed interval that the piece writes down. */
  predicate InPiece(p: Text, x: int)
    requires WfPiece(p)
  {
    if IsRange(p) then
      && (From(p) == [] || Number(From(p)) <= x)
      && (To(p) == [] || x <= Number(To(p)))
    else
      x == Number(p)
  }

  /** The point or the interval that its tree matches. */
  predicate Built(p: Text, x: int)
    requires WfPiece(p)
  {
    if IsRange(p) then
      && (From(p) == [] || (LowerFits(From(p)) && Number(From(p)) <= x))
      && (To(p) == [] || x < Raised(To(p)))
    else
      x == Number(p)
  }

  /** The bounds have room for their neighbours, or the interval is empty however it is cut. */
  predicate PieceFits(p: Text)
    requires WfPiece(p)
  {
    IsRange(p) ==>
      && (From(p) == [] || LowerFits(From(p)))
      && (To(p) == [] || UpperFits(To(p)) || (From(p) != [] && Number(From(p)) > Number(To(p))))
  }

  /** The first and the last number that a piece without room loses; it may lose all from some number on. */
  function LostFrom(p: Text): int
    requires WfPiece(p) && !PieceFits(p)
  {
    if From(p) != [] && (!LowerFits(From(p)) || Number(From(p)) >= Raised(To(p))) then Number(From(p))
    else Raised(To(p))
  }

  function LostTo(p: Text): Option<int>
    requires WfPiece(p) && !PieceFits(p)
  {
    if To(p) == [] then None else Some(Number(To(p)))
  }

  /** The last number of the interval that is built. */
  function BuiltTo(p: Text): Option<int>
    requires WfPiece(p)
  {
    if !IsRange(p) then Some(Number(p)) else if To(p) == [] then None else Some(Raised(To(p)) - 1)
  }

  // ---------------------------------------------------------------- one piece

  lemma EverythingMatches(field: Text, x: int)
    ensures Matches(EVERYTHING, field, x)
  {
  }

  lemma LookupTwo(prop: Text, value: Text)
    ensures var ps := [Dicts.Pair(FIELD, prop), Dicts.Pair(VALUE, value)];
            Dicts.Lookup(ps, FIELD) == Some(prop) && Dicts.Lookup(ps, VALUE) == Some(value)
  {
    var ps := [Dicts.Pair(FIELD, prop), Dicts.Pair(VALUE, value)];
    Names();
    Dicts.CmpAntisymmetric(FIELD, FIELD);
    Dicts.CmpAntisymmetric(VALUE, VALUE);
    assert ps[1..] == [Dicts.Pair(VALUE, value)];
  }

  /** A comparison filter over another collection. */
  lemma FilterMatches(kind: uint32, field: Text, value: Text, over: Coll, x: int)
    requires kind in {SMALLER, GREATER, EQUALS}
    ensures var n := Num(value);
            Matches(FilterOver(kind, field, value, over), field, x) <==>
              (&& Matches(over, field, x) && n.Some?
               && (if kind == SMALLER then x < n.value else if kind == GREATER then x > n.value else x == n.value))
  {
    hide Num;
    LookupTwo(field, value);
    var c := FilterOver(kind, field, value, over);
    assert c.operands == [over] && c.operands[0] == over;
  }

  lemma DigitsAreValid(t: Text)
    requires Digits(t) || (t != [] && t[0] == MINUS && Digits(t[1..]))
    ensures Utf8.Valid(t)
  {
    assert forall k :: 0 <= k < |t| ==> IsDigit(t[k]) || t[k] == MINUS by {
      forall k | 0 <= k < |t| ensures IsDigit(t[k]) || t[k] == MINUS {
        if t[0] == MINUS && k > 0 && !Digits(t) { assert t[k] == t[1..][k - 1]; }
      }
    }
    Utf8.AsciiIsValid(t);
  }

  lemma IntAddValid(t: Text, delta: int)
    requires -1 <= delta <= 1 && IntAdd(t, delta).Some?
    ensures Utf8.Valid(IntAdd(t, delta).value)
  {
    var n := IntWrap(StrToL(t).value + delta);
    var d, r := Dec(n), IntAdd(t, delta).value;
    assert n < 0 ==> d[0] == MINUS && d[1..] == DecNat(-n);
    if r != d {
      assert r == d[..|t|];
      if |t| > 0 && n < 0 { assert r[1..] == d[1..][..|t| - 1]; }
    }
    if r == [] { } else { DigitsAreValid(r); }
  }

  /** The lower bound alone: exact exactly when it has room; otherwise it matches nothing. */
  lemma FromMatches(t: Text, field: Text, x: int)
    requires t != [] && Digits(t) && Number(t) <= INT_MAX && Utf8.Valid(field)
    ensures var c := Filter(GREATER, field, IntAdd(t, -1), Universe());
            Matches(c, field, x) <==> LowerFits(t) && Number(t) <= x
  {
    hide Utf8.Valid, IntAdd, Num, Filter, Universe, LowerFits, Number, Matches;
    UniverseIs();
    LowerExact(t);
    IntAddValid(t, -1);
    FilterBuilt(GREATER, field, IntAdd(t, -1).value, EVERYTHING);
    FilterMatches(GREATER, field, IntAdd(t, -1).value, EVERYTHING, x);
    EverythingMatches(field, x);
  }

  /** The upper bound over the rest: it lets through what is below the raised bound. */
  lemma ToMatches(t: Text, field: Text, over: Coll, x: int)
    requires t != [] && Digits(t) && Number(t) < INT_MAX && Utf8.Valid(field)
    ensures var c := Filter(SMALLER, field, IntAdd(t, 1), over);
            Matches(c, field, x) <==> Matches(over, field, x) && x < Raised(t)
  {
    hide Utf8.Valid, IntAdd, Num, Filter, UpperFits, Number, Matches, Raised;
    RaiseExact(t);
    IntAddValid(t, 1);
    FilterBuilt(SMALLER, field, IntAdd(t, 1).value, over);
    FilterMatches(SMALLER, field, IntAdd(t, 1).value, over, x);
  }

  /** What the tree of a piece matches, whether its bounds have room or not. */
  lemma PieceMatches(p: Text, field: Text, x: int)
    requires WfPiece(p) && Utf8.Valid(field)
    ensures Matches(Piece(p, field), field, x) <==> Built(p, x)
  {
    hide Utf8.Valid, IntAdd, Num, Filter, Universe, Raised, LowerFits, Number, Matches, Digits, IndexOf;
    UniverseIs();
    EverythingMatches(field, x);
    if !IsRange(p) {
      DigitsAreValid(p);
      FilterBuilt(EQUALS, field, p, EVERYTHING);
      FilterMatches(EQUALS, field, p, EVERYTHING, x);
      NumOfDigits(p);
    } else {
      var from := if From(p) != [] then Filter(GREATER, field, IntAdd(From(p), -1), Universe()) else Universe();
      if From(p) != [] { FromMatches(From(p), field, x); }
      if To(p) != [] { ToMatches(To(p), field, from, x); }
    }
  }

  lemma LoneZero(t: Text)
    requires Digits(t) && !LowerFits(t)
    ensures Number(t) == 0
  {
    assert t[..0] == [];
  }

  lemma NumOfDigits(t: Text)
    requires t != [] && Digits(t)
    ensures Num(t) == Some(Number(t))
  {
  }

  lemma RaisedAtMost(t: Text)
    requires t != [] && Digits(t)
    ensures 0 < Raised(t) <= Number(t) + 1
    ensures UpperFits(t) <==> Raised(t) == Number(t) + 1
  {
    if !UpperFits(t) { RaiseNines(t); }
  }

  /** Nothing is built that was not written, and what is lost is one interval, empty exactly when the bounds fit. */
  lemma LostIs(p: Text, x: int)
    requires WfPiece(p)
    ensures Built(p, x) ==> InPiece(p, x)
    ensures PieceFits(p) ==> (InPiece(p, x) ==> Built(p, x))
    ensures !PieceFits(p) ==>
      (InPiece(p, x) && !Built(p, x) <==> LostFrom(p) <= x && (LostTo(p).Some? ==> x <= LostTo(p).value))
    ensures !PieceFits(p) && LostTo(p).Some? ==> LostFrom(p) <= LostTo(p).value
  {
    hide Number, Raised, UpperFits, LowerFits, Digits, IndexOf;
    if IsRange(p) {
      if To(p) != [] { RaisedAtMost(To(p)); }
      if From(p) != [] && !LowerFits(From(p)) { LoneZero(From(p)); }
    }
  }

  /** The tree of a piece denotes exactly the written interval if and only if the bounds fit. */
  lemma PieceExact(p: Text, field: Text)
    requires WfPiece(p) && Utf8.Valid(field)
    ensures (forall x :: Matches(Piece(p, field), field, x) <==> InPiece(p, x)) <==> PieceFits(p)
  {
    hide Piece, InPiece, Built, PieceFits, Matches, LostFrom, LostTo;
    forall x ensures PieceFits(p) ==> (Matches(Piece(p, field), field, x) <==> InPiece(p, x)) {
      PieceMatches(p, field, x);
      LostIs(p, x);
    }
    if !PieceFits(p) {
      PieceMatches(p, field, LostFrom(p));
      LostIs(p, LostFrom(p));
    }
  }

  // ---------------------------------------------------------------- whole sequences

  ghost predicate WfSequence(t: Text) { forall i :: 0 <= i < |Pieces(t)| ==> WfPiece(Pieces(t)[i]) }

  ghost predicate InSequence(t: Text, x: int)
    requires WfSequence(t)
  {
    exists i :: 0 <= i < |Pieces(t)| && InPiece(Pieces(t)[i], x)
  }

  lemma {:induction false} PieceCollsAt(ps: seq<Text>, field: Text, i: nat)
    requires i < |ps|
    ensures PieceColls(ps, field)[i] == Piece(ps[i], field)
  {
    hide Piece;
    if i > 0 { PieceCollsAt(ps[1..], field, i - 1); }
  }

  /** Some piece's tree matches the number. */
  predicate Somewhere(ps: seq<Text>, x: int)
    requires forall i :: 0 <= i < |ps| ==> WfPiece(ps[i])
  {
    exists i :: 0 <= i < |ps| && Built(ps[i], x)
  }

  /** What a whole sequence matches, whether its bounds have room or not. */
  lemma SequenceMatches(t: Text, field: Text, x: int)
    requires WfSequence(t) && Utf8.Valid(field)
    ensures Matches(SequenceColl(t, field), field, x) <==> Somewhere(Pieces(t), x)
  {
    hide Piece, Built, WfPiece, Utf8.Valid;
    var ps, c := Pieces(t), SequenceColl(t, field);
    forall i | 0 <= i < |ps| ensures Matches(Piece(ps[i], field), field, x) <==> Built(ps[i], x) {
      PieceMatches(ps[i], field, x);
    }
    if |ps| == 1 {
      assert c == Piece(ps[0], field);
    } else {
      forall i | 0 <= i < |ps| ensures c.operands[i] == Piece(ps[i], field) { PieceCollsAt(ps, field, i); }
    }
  }

  /**
   An interval lies inside the built ones: its first number does, and wherever a built interval
   ends inside it, another goes on.
   */
  predicate Covered(ps: seq<Text>, lo: int, hi: Option<int>)
    requires forall i :: 0 <= i < |ps| ==> WfPiece(ps[i])
  {
    && Somewhere(ps, lo)
    && forall j :: 0 <= j < |ps| ==> EndsCovered(ps, BuiltTo(ps[j]), lo, hi)
  }

  predicate EndsCovered(ps: seq<Text>, end: Option<int>, lo: int, hi: Option<int>)
    requires forall i :: 0 <= i < |ps| ==> WfPiece(ps[i])
  {
    end.Some? && lo <= end.value && (hi.Some? ==> end.value < hi.value) ==> Somewhere(ps, end.value + 1)
  }

  lemma BuiltEnds(p: Text, x: int)
    requires WfPiece(p) && Built(p, x) && !Built(p, x + 1)
    ensures BuiltTo(p) == Some(x)
  {
  }

  lemma {:induction false} CoveredAt(ps: seq<Text>, lo: int, hi: Option<int>, x: int)
    requires forall i :: 0 <= i < |ps| ==> WfPiece(ps[i])
    requires Covered(ps, lo, hi) && lo <= x && (hi.Some? ==> x <= hi.value)
    ensures Somewhere(ps, x)
    decreases x - lo
  {
    hide WfPiece, Built, BuiltTo;
    if x > lo {
      CoveredAt(ps, lo, hi, x - 1);
      var j :| 0 <= j < |ps| && Built(ps[j], x - 1);
      if !Built(ps[j], x) {
        BuiltEnds(ps[j], x - 1);
        assert EndsCovered(ps, BuiltTo(ps[j]), lo, hi);
      }
    }
  }

  /** Every piece has room for its bounds, or other pieces cover what it loses. */
  predicate SequenceFits(ps: seq<Text>)
    requires forall i :: 0 <= i < |ps| ==> WfPiece(ps[i])
  {
    forall i :: 0 <= i < |ps| ==> PieceFits(ps[i]) || Covered(ps, LostFrom(ps[i]), LostTo(ps[i]))
  }

  lemma FitsThen(ps: seq<Text>, i: nat, x: int)
    requires forall i :: 0 <= i < |ps| ==> WfPiece(ps[i])
    requires SequenceFits(ps) && i < |ps| && InPiece(ps[i], x)
    ensures Somewhere(ps, x)
  {
    hide WfPiece, InPiece, Built, PieceFits, LostFrom, LostTo, Covered;
    LostIs(ps[i], x);
    if !Built(ps[i], x) {
      CoveredAt(ps, LostFrom(ps[i]), LostTo(ps[i]), x);
    }
  }

  lemma ThenCovered(ps: seq<Text>, i: nat)
    requires forall i :: 0 <= i < |ps| ==> WfPiece(ps[i])
    requires i < |ps| && !PieceFits(ps[i])
    requires forall x :: InPiece(ps[i], x) ==> Somewhere(ps, x)
    ensures Covered(ps, LostFrom(ps[i]), LostTo(ps[i]))
  {
    hide WfPiece, InPiece, Built, PieceFits, LostFrom, LostTo, BuiltTo, Somewhere;
    var lo, hi := LostFrom(ps[i]), LostTo(ps[i]);
    LostIs(ps[i], lo);
    assert InPiece(ps[i], lo);
    forall j | 0 <= j < |ps| ensures EndsCovered(ps, BuiltTo(ps[j]), lo, hi) {
      if BuiltTo(ps[j]).Some? {
        LostIs(ps[i], BuiltTo(ps[j]).value + 1);
      }
    }
  }

  /** A sequence denotes exactly the union of its points and intervals if and only if it fits. */
  lemma SequenceDenotes(t: Text, field: Text)
    requires WfSequence(t) && Utf8.Valid(field)
    ensures (forall x :: Matches(SequenceColl(t, field), field, x) <==> InSequence(t, x)) <==> SequenceFits(Pieces(t))
  {
    hide Piece, Matches, SequenceColl, WfPiece, InPiece, Built, PieceFits, LostFrom, LostTo, Covered;
    var ps := Pieces(t);
    forall x ensures Matches(SequenceColl(t, field), field, x) <==> Somewhere(ps, x) {
      SequenceMatches(t, field, x);
    }
    if SequenceFits(ps) {
      forall x ensures Somewhere(ps, x) <==> InSequence(t, x) {
        BuiltIsWritten(t, x);
        if i :| 0 <= i < |ps| && InPiece(ps[i], x) { FitsThen(ps, i, x); }
      }
    }
    if forall x :: Matches(SequenceColl(t, field), field, x) <==> InSequence(t, x) {
      forall i | 0 <= i < |ps| ensures PieceFits(ps[i]) || Covered(ps, LostFrom(ps[i]), LostTo(ps[i])) {
        if !PieceFits(ps[i]) {
          forall x | InPiece(ps[i], x) ensures Somewhere(ps, x) { assert InSequence(t, x); }
          ThenCovered(ps, i);
        }
      }
    }
  }

  lemma BuiltIsWritten(t: Text, x: int)
    requires WfSequence(t)
    ensures Somewhere(Pieces(t), x) ==> InSequence(t, x)
  {
    hide WfPiece, InPiece, Built, PieceFits, LostFrom, LostTo;
    var ps := Pieces(t);
    if i :| 0 <= i < |ps| && Built(ps[i], x) { LostIs(ps[i], x); }
  }

  /** "1-9" loses its numbers: 10 does not fit where 9 stood, and nothing is between 1 and 1. */
  lemma OneToNine(x: int)
    ensures var p := T("1-9");
            && WfPiece(p) && !PieceFits(p)
            && (InPiece(p, x) <==> 1 <= x <= 9)
            && !Matches(Piece(p, POSITION), POSITION, x)
  {
    hide Matches, Piece;
    var p := T("1-9");
    assert IndexOf(p[1..], MINUS) == 0;
    assert IndexOf(p, MINUS) == 1;
    assert From(p) == [ZERO + 1] && To(p) == [ZERO + 9];
    assert From(p)[..0] == [] && To(p)[..0] == [];
    assert AllNines(To(p));
    assert Number(From(p)) == 1 && Number(To(p)) == 9;
    assert Raised(To(p)) == Pow10(0) == 1;
    Utf8.AsciiIsValid(POSITION);
    PieceMatches(p, POSITION, x);
  }

  /** strchr from `start`: the index of the first `c`, or the end of the string. */
  method StrChr(t: Text, start: nat, c: byte) returns (i: nat)
    requires start <= |t|
    ensures i == start + IndexOf(t[start..], c)
  {
    i := start;
    while i < |t| && t[i] != c
      invariant start <= i <= |t|
      invariant start + IndexOf(t[start..], c) == i + IndexOf(t[i..], c)
    {
      assert t[i..][1..] == t[i + 1..];
      i := i + 1;
    }
  }

  /** coll_parse_sequence: walk the text piece by piece, collecting under a union if there is a comma. */
  method BuildSequence(t: Text, field: Text) returns (c: Coll)
    ensures c == SequenceColl(t, field)
  {
    hide Piece, Pieces, PieceColls, IndexOf, Collected, SequenceColl, WithOperand;
    var start := 0;
    var end := StrChr(t, start, COMMA);
    var parent: Option<Coll> := if end < |t| then Some(Empty(UNION)) else None;
    CollectNone(t, field);
    while true
      invariant start <= end <= |t| && end == start + IndexOf(t[start..], COMMA)
      invariant if parent.None? then start == 0 && end == |t|
                else IndexOf(t, COMMA) < |t| && Collected(parent.value, t, start, field)
      decreases |t| - start
    {
      var dash := StrChr(t, start, MINUS);
      c := BuildPiece(t, start, dash, end, field);
      if parent.Some? {
        CollectOne(parent.value, t, start, field, c);
        parent := Some(WithOperand(parent.value, c));
      }
      if end == |t| {
        break;
      }
      start := end + 1;
      end := StrChr(t, start, COMMA);
    }
    if parent.Some? {
      c := parent.value;
    }
  }

  /** The union has the pieces before `start`, and lacks those from there on. */
  ghost predicate Collected(parent: Coll, t: Text, start: nat, field: Text)
    requires start <= |t|
  {
    && parent == Empty(UNION).(operands := parent.operands)
    && parent.operands + PieceColls(Pieces(t[start..]), field) == PieceColls(Pieces(t), field)
  }

  lemma CollectNone(t: Text, field: Text)
    ensures t[0..] == t && t[0..|t|] == t
    ensures Collected(Empty(UNION), t, 0, field)
    ensures SequenceColl(t, field) == if IndexOf(t, COMMA) == |t| then Piece(t, field)
                                      else Empty(UNION).(operands := PieceColls(Pieces(t), field))
  {
    hide Piece, Pieces, PieceColls, IndexOf;
    assert t[0..] == t && t[0..|t|] == t;
    assert [] + PieceColls(Pieces(t), field) == PieceColls(Pieces(t), field);
    PiecesFrom(t, 0, field);
  }

  lemma CollectOne(parent: Coll, t: Text, start: nat, field: Text, c: Coll)
    requires start <= |t| && Collected(parent, t, start, field)
    requires c == Piece(t[start..start + IndexOf(t[start..], COMMA)], field)
    ensures var end := start + IndexOf(t[start..], COMMA);
            if end < |t| then Collected(WithOperand(parent, c), t, end + 1, field)
            else WithOperand(parent, c) == Empty(UNION).(operands := PieceColls(Pieces(t), field))
  {
    hide Piece, Pieces, PieceColls, IndexOf;
    PiecesFrom(t, start, field);
    var end := start + IndexOf(t[start..], COMMA);
    var rest := if end == |t| then [] else PieceColls(Pieces(t[end + 1..]), field);
    assert parent.operands + ([c] + rest) == parent.operands + [c] + rest;
  }

  /** The piece that starts at `start`, and what follows its comma. */
  lemma PiecesFrom(t: Text, start: nat, field: Text)
    requires start <= |t|
    ensures var end := start + IndexOf(t[start..], COMMA);
            && (if end == |t| then Pieces(t[start..]) == [t[start..]]
                else Pieces(t[start..]) == [t[start..end]] + Pieces(t[end + 1..]))
            && PieceColls(Pieces(t[start..]), field)
               == [Piece(t[start..end], field)]
                + (if end == |t| then [] else PieceColls(Pieces(t[end + 1..]), field))
  {
    hide Piece, Pieces, PieceColls, IndexOf;
    var u := t[start..];
    var n := IndexOf(u, COMMA);
    FirstPiece(u, field);
    assert u[..n] == t[start..start + n];
    if n < |u| {
      assert u[n + 1..] == t[start + n + 1..];
    } else {
      assert u[..n] == u;
    }
  }

  lemma FirstPiece(u: Text, field: Text)
    ensures var n := IndexOf(u, COMMA);
            && Pieces(u) == (if n == |u| then [u] else [u[..n]] + Pieces(u[n + 1..]))
            && PieceColls(Pieces(u), field)
               == [Piece(u[..n], field)] + (if n == |u| then [] else PieceColls(Pieces(u[n + 1..]), field))
  {
    hide Piece, IndexOf;
    var n := IndexOf(u, COMMA);
    if n < |u| {
      assert ([u[..n]] + Pieces(u[n + 1..]))[1..] == Pieces(u[n + 1..]);
    } else {
      assert u[..n] == u && [u][1..] == [];
    }
  }

  /** The body of the loop: the piece between `start` and `end`; `dash` may lie beyond it. */
  method BuildPiece(t: Text, start: nat, dash: nat, end: nat, field: Text) returns (c: Coll)
    requires start <= end <= |t| && end == start + IndexOf(t[start..], COMMA)
    requires dash == start + IndexOf(t[start..], MINUS)
    ensures c == Piece(t[start..end], field)
  {
    hide Filter, Universe, IntAdd;
    ghost var p := t[start..end];
    DashInPiece(t, start, end);
    if dash < end {
      var from;
      if dash - start > 0 {
        from := Filter(GREATER, field, IntAdd(t[start..dash], -1), Universe());
      } else {
        from := Universe();
      }
      assert t[start..dash] == p[..dash - start] && t[dash + 1..end] == p[dash - start + 1..];
      if end - dash - 1 > 0 {
        c := Filter(SMALLER, field, IntAdd(t[dash + 1..end], 1), from);
      } else {
        c := from;
      }
    } else {
      c := Filter(EQUALS, field, Some(t[start..end]), Universe());
    }
  }

  /** Looking for the dash in the piece, or in all that follows it. */
  lemma DashInPiece(t: Text, start: nat, end: nat)
    requires start <= end <= |t|
    ensures var d := IndexOf(t[start..], MINUS);
            if start + d < end then IndexOf(t[start..end], MINUS) == d else IndexOf(t[start..end], MINUS) == end - start
  {
    IndexOfPrefix(t[start..], end - start, MINUS);
    assert t[start..][..end - start] == t[start..end];
  }

  lemma {:induction false} IndexOfPrefix(u: Text, n: nat, c: byte)
    requires n <= |u|
    ensures IndexOf(u[..n], c) == if IndexOf(u, c) < n then IndexOf(u, c) else n
  {
    if n > 0 && u[0] != c {
      assert u[..n][1..] == u[1..][..n - 1];
      IndexOfPrefix(u[1..], n - 1, c);
    }
  }
}
