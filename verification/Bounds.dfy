/**
 '<=' and '>=': the context pass turns them into strict comparisons with the next number, and
 exactly when that is the same comparison.
 */
module Bounds {
  import opened Bytes
  import opened Values
  import opened Tokens
  import opened CollParser
  import opened Numbers
  import opened Prepare
  import opened Printer
  import opened Sequences
  import Utf8

  lemma StrictPrepared(p: Text, op: TokenType, strict: TokenType, m: Text, delta: int)
    requires (op == FilSmallerEq && strict == FilSmaller && delta == 1) || (op == FilGreaterEq && strict == FilGreater && delta == -1)
    requires IntAdd(m, delta).Some?
    ensures Prepared([Token(PropLong, p), Op(op), Token(Integer, m)])
         == Binary(Token(PropLong, p), strict, Token(Integer, IntAdd(m, delta).value))
  {
    hide IntAdd;
    var ts := [Token(PropLong, p), Op(op), Token(Integer, m)];
    assert ts[1..] == [Op(op), Token(Integer, m)] && ts[1..][1..] == [Token(Integer, m)];
    var p', m' := Op(strict), Token(Integer, IntAdd(m, delta).value);
    assert Adjust(Op(op), Token(Integer, m)) == (p', m');
    assert PrepareFrom(Op(op), [Token(Integer, m)]) == [p'] + PrepareFrom(m', []);
    assert Prepared(ts) == [ts[0]] + PrepareFrom(Op(op), [Token(Integer, m)]);
  }

  lemma StrictBuilt(p: Text, strict: TokenType, kind: uint32, n: Text)
    requires (strict == FilSmaller && kind == SMALLER) || (strict == FilGreater && kind == GREATER)
    requires Utf8.Valid(p) && Utf8.Valid(n)
    ensures Build(Binary(Token(PropLong, p), strict, Token(Integer, n))) == Some(FilterOver(kind, p, n, EVERYTHING))
  {
    hide Build, Utf8.Valid, Print, ToColl, WfQuery, FilterOver;
    var q := if kind == SMALLER then Smaller(p, n) else Greater(p, n);
    ComparisonIs(p, n);
    ParserInvertsPrinter(q, PLAIN);
  }

  lemma ComparisonIs(p: Text, n: Text)
    requires Utf8.Valid(p) && Utf8.Valid(n)
    ensures WfQuery(Smaller(p, n)) && WfQuery(Greater(p, n))
    ensures Print(Smaller(p, n), PLAIN) == Binary(Token(PropLong, p), FilSmaller, Token(Integer, n))
    ensures Print(Greater(p, n), PLAIN) == Binary(Token(PropLong, p), FilGreater, Token(Integer, n))
    ensures ToColl(Smaller(p, n)) == FilterOver(SMALLER, p, n, EVERYTHING)
    ensures ToColl(Greater(p, n)) == FilterOver(GREATER, p, n, EVERYTHING)
  {
    hide Utf8.Valid;
  }

  /** "p <= m" is parsed, and means at most m if and only if m is not a row of nines. */
  lemma AtMost(p: Text, m: Text)
    requires Utf8.Valid(p) && m != [] && Digits(m) && Number(m) < INT_MAX
    ensures var c := Build(Prepared([Token(PropLong, p), Op(FilSmallerEq), Token(Integer, m)]));
            && c.Some?
            && (forall x :: Matches(c.value, p, x) <==> x < Raised(m))
            && ((forall x :: Matches(c.value, p, x) <==> x <= Number(m)) <==> UpperFits(m))
  {
    hide IntAdd, Build, Prepared, Matches, Num, Utf8.Valid, UpperFits, Number, Raised;
    RaiseExact(m);
    IntAddValid(m, 1);
    var n := IntAdd(m, 1).value;
    StrictPrepared(p, FilSmallerEq, FilSmaller, m, 1);
    StrictBuilt(p, FilSmaller, SMALLER, n);
    var c := FilterOver(SMALLER, p, n, EVERYTHING);
    forall x ensures Matches(c, p, x) <==> x < Raised(m) {
      FilterMatches(SMALLER, p, n, EVERYTHING, x);
      EverythingMatches(p, x);
    }
    assert Matches(c, p, Number(m)) <==> Number(m) < Raised(m);
  }

  /** "p >= m" is parsed, and means at least m if and only if m is not the one-digit zero; then it means nothing. */
  lemma AtLeast(p: Text, m: Text)
    requires Utf8.Valid(p) && m != [] && Digits(m) && Number(m) <= INT_MAX
    ensures var c := Build(Prepared([Token(PropLong, p), Op(FilGreaterEq), Token(Integer, m)]));
            && c.Some?
            && (forall x :: Matches(c.value, p, x) <==> LowerFits(m) && x >= Number(m))
            && ((forall x :: Matches(c.value, p, x) <==> x >= Number(m)) <==> LowerFits(m))
  {
    hide IntAdd, Build, Prepared, Matches, Num, Utf8.Valid, LowerFits, Number;
    LowerExact(m);
    IntAddValid(m, -1);
    var n := IntAdd(m, -1).value;
    StrictPrepared(p, FilGreaterEq, FilGreater, m, -1);
    StrictBuilt(p, FilGreater, GREATER, n);
    var c := FilterOver(GREATER, p, n, EVERYTHING);
    forall x ensures Matches(c, p, x) <==> LowerFits(m) && x >= Number(m) {
      FilterMatches(GREATER, p, n, EVERYTHING, x);
      EverythingMatches(p, x);
    }
    assert Matches(c, p, Number(m)) <==> LowerFits(m);
  }

  /** "p <= m" for a number that does not fit an int finds some negative numbers only: it never means at most m. */
  lemma AtMostLarge(p: Text, m: Text, x: int)
    requires Utf8.Valid(p) && m != [] && Digits(m) && Number(m) >= INT_MAX
    ensures var c := Build(Prepared([Token(PropLong, p), Op(FilSmallerEq), Token(Integer, m)]));
            c.Some? && (Matches(c.value, p, x) <==> x < if |m| == 10 then -214748364 else -2147483648)
  {
    hide IntAdd, Build, Prepared, Matches, Num, Utf8.Valid, Number;
    RaiseLarge(m);
    IntAddValid(m, 1);
    var n := IntAdd(m, 1).value;
    StrictPrepared(p, FilSmallerEq, FilSmaller, m, 1);
    StrictBuilt(p, FilSmaller, SMALLER, n);
    FilterMatches(SMALLER, p, n, EVERYTHING, x);
    EverythingMatches(p, x);
  }

  /** "p >= m" for one above the largest int means at least that largest int. */
  lemma AtLeastLarge(p: Text, m: Text, x: int)
    requires Utf8.Valid(p) && m != [] && Digits(m) && Number(m) > INT_MAX
    ensures var c := Build(Prepared([Token(PropLong, p), Op(FilGreaterEq), Token(Integer, m)]));
            c.Some? && (Matches(c.value, p, x) <==> x >= 0x7fff_ffff)
  {
    hide IntAdd, Build, Prepared, Matches, Num, Utf8.Valid, Number;
    LowerLarge(m);
    IntAddValid(m, -1);
    var n := IntAdd(m, -1).value;
    StrictPrepared(p, FilGreaterEq, FilGreater, m, -1);
    StrictBuilt(p, FilGreater, GREATER, n);
    FilterMatches(GREATER, p, n, EVERYTHING, x);
    EverythingMatches(p, x);
  }

  /** "p <= 9" finds nothing above zero, and "p >= 0" finds nothing at all. */
  lemma NineAndZero(p: Text, x: int)
    requires Utf8.Valid(p)
    ensures var c := Build(Prepared([Token(PropLong, p), Op(FilSmallerEq), Token(Integer, T("9"))]));
            c.Some? && (Matches(c.value, p, x) <==> x < 1)
    ensures var c := Build(Prepared([Token(PropLong, p), Op(FilGreaterEq), Token(Integer, T("0"))]));
            c.Some? && !Matches(c.value, p, x)
  {
    hide Build, Prepared, Matches, Utf8.Valid;
    var nine, zero := T("9"), T("0");
    assert nine == [ZERO + 9] && zero == [ZERO] && nine[..0] == [] && zero[..0] == [];
    assert AllNines(nine) && Number(nine) == 9 && Number(zero) == 0;
    assert Raised(nine) == Pow10(0) == 1;
    AtMost(p, nine);
    AtLeast(p, zero);
  }
}
