/**
 The context pass: adjacent tokens are retyped and rewritten in place before parsing.
 */
module Prepare {
  import opened Bytes
  import opened Values
  import opened Tokens
  import Numbers

  const ASTERISK: byte := '*' as int

  predicate Ordering(ty: TokenType) { ty in {FilSmaller, FilGreater, FilSmallerEq, FilGreaterEq} }

  /** A string in the place of a property name. */
  function AsProp(t: Token): Token { t.(ty := if |t.text| == 1 then PropShort else PropLong) }

  /** Surround with '*', without doubling one that is there. */
  function Fuzzy(s: Text): Text {
    var front := if s == [] || s[0] != ASTERISK then [ASTERISK] else [];
    var back := if s != [] && s[|s| - 1] != ASTERISK then [ASTERISK] else [];
    front + s + back
  }

  predicate Starry(t: Text) { t != [] && t[0] == '*' as int && t[|t| - 1] == '*' as int }

  predicate StandsIn(s: Text, t: Text, i: nat) { i + |s| <= |t| && t[i..i + |s|] == s }

  /** Nothing is lost, and at most one star is put at each end, none where there is one. */
  lemma FuzzyWraps(s: Text)
    ensures s == [] ==> Fuzzy(s) == ['*' as int]
    ensures s != [] ==>
      Fuzzy(s) == (if s[0] == '*' as int then [] else ['*' as int]) + s + (if s[|s| - 1] == '*' as int then [] else ['*' as int])
    ensures Starry(Fuzzy(s))
  {
    var a: Text := ['*' as int];
    assert a + [] + [] == a;
  }

  lemma StandingIn(s: Text, t: Text, i: nat)
    requires StandsIn(s, t, i)
    ensures t == t[..i] + s + t[i + |s|..]
  {
    assert t == t[..i] + t[i..i + |s|] + t[i + |s|..];
  }

  /** Where the text has no star of its own, there is one in front of it, and one behind. */
  lemma StarsAround(x: seq<byte>, s: seq<byte>, y: seq<byte>, t: Text)
    requires s != [] && t == x + s + y && Starry(t)
    ensures s[0] != '*' as int ==> x != [] && x[0] == '*' as int
    ensures s[|s| - 1] != '*' as int ==> y != [] && y[|y| - 1] == '*' as int
  {
    assert x == [] ==> t[0] == s[0];
    assert x != [] ==> t[0] == x[0];
    assert y == [] ==> t[|t| - 1] == s[|s| - 1];
    assert y != [] ==> t[|t| - 1] == y[|y| - 1];
  }

  lemma OneStar(x: seq<byte>)
    requires |x| == 1 && x[0] == '*' as int
    ensures x == ['*' as int]
  {
  }

  /** The wrapped text is the shortest one that starts and ends with a star and has the text in it. */
  lemma FuzzyIsShortest(s: Text, t: Text, i: nat)
    requires Starry(t) && StandsIn(s, t, i)
    ensures |Fuzzy(s)| <= |t| && (|Fuzzy(s)| == |t| ==> Fuzzy(s) == t)
  {
    FuzzyWraps(s);
    StandingIn(s, t, i);
    hide Fuzzy, Starry, StandsIn;
    var x, y := t[..i], t[i + |s|..];
    if s == [] {
      AnyStarry(t);
      if |t| == 1 { OneStar(t); }
    } else {
      StarsAround(x, s, y, t);
      if |Fuzzy(s)| == |t| {
        if |x| == 1 && s[0] != '*' as int { OneStar(x); }
        if |y| == 1 && s[|s| - 1] != '*' as int { OneStar(y); }
        assert x == if s[0] == '*' as int then [] else ['*' as int];
        assert y == if s[|s| - 1] == '*' as int then [] else ['*' as int];
      }
    }
  }

  lemma AnyStarry(t: Text)
    requires Starry(t)
    ensures t != [] && t[0] == '*' as int
  {
  }

  /** What one step does to the previous and the current token. */
  function Adjust(prev: Token, curr: Token): (Token, Token) {
    if Ordering(curr.ty) && prev.ty == String then (AsProp(prev), curr) else
    match prev.ty
    case FilHas => (prev, if curr.ty == String then AsProp(curr) else curr)
    case FilMatch =>
      if curr.ty == Integer || curr.ty == String then (prev, Token(String, Fuzzy(curr.text)))
      else if curr.ty == Pattern then (prev, curr.(text := Fuzzy(curr.text)))
      else (prev, curr)
    case FilEquals =>
      if curr.ty == Pattern then (prev.(ty := FilMatch), curr)
      else if curr.ty == Integer then (prev, curr.(ty := String))
      else (prev, curr)
    case FilGreaterEq => Strict(prev, FilGreater, curr, -1)
    case FilSmallerEq => Strict(prev, FilSmaller, curr, 1)
    case _ => (prev, curr)
  }

  /** '<=' and '>=' become '<' and '>' with the neighbouring number. */
  function Strict(prev: Token, strict: TokenType, curr: Token, delta: int): (Token, Token)
    requires -1 <= delta <= 1
  {
    if curr.ty != Integer then (prev, curr) else
    match Numbers.IntAdd(curr.text, delta)
    case None => (prev, curr)
    case Some(n) => (prev.(ty := strict), curr.(text := n))
  }

  /**
   What two neighbours do to each other, and that nothing else changes: a string in front of an
   ordering becomes a name; otherwise a string behind HAS becomes a name, what stands behind '~' is
   wrapped and no integer, a pattern behind ':' makes it a MATCH and an integer there a string, and
   an integer behind '<=' or '>=' gives way to its neighbour.
   */
  lemma AdjustOnly(prev: Token, curr: Token)
    ensures var (p, c) := Adjust(prev, curr);
      && c.ty == (if prev.ty == FilMatch && curr.ty == Integer then String
                  else if prev.ty == FilEquals && curr.ty == Integer then String
                  else if prev.ty == FilHas && curr.ty == String then (if |curr.text| == 1 then PropShort else PropLong)
                  else curr.ty)
      && p.ty == (if Named(prev, curr) then (if |prev.text| == 1 then PropShort else PropLong)
                  else if prev.ty == FilEquals && curr.ty == Pattern then FilMatch
                  else if prev.ty == FilSmallerEq && Adds(curr, 1) then FilSmaller
                  else if prev.ty == FilGreaterEq && Adds(curr, -1) then FilGreater
                  else prev.ty)
      && p.text == prev.text
      && (c.text != curr.text ==>
            || (prev.ty == FilMatch && curr.ty in {Integer, String, Pattern} && c.text == Fuzzy(curr.text))
            || (prev.ty == FilSmallerEq && Adds(curr, 1) && Numbers.IntAdd(curr.text, 1) == Some(c.text))
            || (prev.ty == FilGreaterEq && Adds(curr, -1) && Numbers.IntAdd(curr.text, -1) == Some(c.text)))
      && (prev.ty == FilMatch && curr.ty in {Integer, String, Pattern} ==> c.text == Fuzzy(curr.text))
  {
    hide Fuzzy, Numbers.IntAdd;
  }

  /** A string in front of an ordering. */
  predicate Named(prev: Token, curr: Token) {
    prev.ty == String && (curr.ty == FilSmaller || curr.ty == FilGreater || curr.ty == FilSmallerEq || curr.ty == FilGreaterEq)
  }

  predicate Adds(t: Token, delta: int)
    requires -1 <= delta <= 1
  {
    t.ty == Integer && Numbers.IntAdd(t.text, delta).Some?
  }

  function PrepareFrom(prev: Token, ts: seq<Token>): (r: seq<Token>)
    ensures |r| == |ts| + 1
    decreases |ts|
  {
    if ts == [] then [prev] else
    var (p, c) := Adjust(prev, ts[0]);
    [p] + PrepareFrom(c, ts[1..])
  }

  /** The whole pass, as a function of the tokens. */
  function Prepared(ts: seq<Token>): (r: seq<Token>)
    ensures |r| == |ts|
  {
    if ts == [] then [] else PrepareFrom(ts[0], ts[1..])
  }

  /** coll_parse_prepare: one walk, changing the previous and the current token in place. */
  method PrepareInPlace(tokens: array<Token>)
    modifies tokens
    ensures tokens[..] == Prepared(old(tokens[..]))
  {
    hide Adjust;
    if tokens.Length == 0 {
      return;
    }
    ghost var was := tokens[..];
    var i := 1;
    assert tokens[..0] + PrepareFrom(was[0], was[1..]) == PrepareFrom(was[0], was[1..]);
    while i < tokens.Length
      invariant 1 <= i <= tokens.Length
      invariant tokens[..i - 1] + PrepareFrom(tokens[i - 1], was[i..]) == Prepared(was)
      invariant tokens[i..] == was[i..]
    {
      var (p, c) := Adjust(tokens[i - 1], tokens[i]);
      assert was[i..][1..] == was[i + 1..] && was[i..][0] == tokens[i];
      ghost var done, rest := tokens[..i - 1], PrepareFrom(c, was[i + 1..]);
      assert done + ([p] + rest) == done + [p] + rest;
      tokens[i - 1], tokens[i] := p, c;
      assert tokens[..i] == done + [p];
      assert tokens[i + 1..] == was[i + 1..];
      i := i + 1;
    }
    assert was[i..] == [];
    assert tokens[..] == tokens[..i - 1] + [tokens[i - 1]];
  }
}
