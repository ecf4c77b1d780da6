/**
 The default tokenizer, and the pipeline from a pattern string to a collection.
 */
module Tokenizer {
  import opened Bytes
  import opened Values
  import opened Tokens
  import opened CollParser
  import opened Prepare
  import Numbers

  const SPACE: byte := ' ' as int
  const BACKSLASH: byte := '\\' as int
  const QUOTE: byte := '"' as int
  const APOSTROPHE: byte := '\'' as int
  const QUESTION: byte := '?' as int

  function SkipSpaces(s: Text): (r: Text)
    ensures |r| <= |s| && (r != [] ==> r[0] != SPACE)
  {
    if s != [] && s[0] == SPACE then SkipSpaces(s[1..]) else s
  }

  predicate Prefix(p: string, u: Text) {
    |p| <= |u| && forall i :: 0 <= i < |p| ==> u[i] == p[i] as int
  }

  /** The operator at the front, with its length, in the order the C code tries them. */
  function OperatorAt(u: Text): (r: Option<(TokenType, nat)>)
    ensures r.Some? ==> 0 < r.value.1 <= |u|
  {
    if u == [] then None
    else if u[0] == '(' as int then Some((GroupOpen, 1))
    else if u[0] == ')' as int then Some((GroupClose, 1))
    else if u[0] == '#' as int then Some((SymbolId, 1))
    else if u[0] == '+' as int then Some((FilHas, 1))
    else if u[0] == ':' as int then Some((FilEquals, 1))
    else if u[0] == '~' as int then Some((FilMatch, 1))
    else if Prefix("<=", u) then Some((FilSmallerEq, 2))
    else if Prefix(">=", u) then Some((FilGreaterEq, 2))
    else if u[0] == '<' as int then Some((FilSmaller, 1))
    else if u[0] == '>' as int then Some((FilGreater, 1))
    else if Prefix("OR", u) then Some((OpUnion, 2))
    else if Prefix("AND", u) then Some((OpIntersection, 3))
    else if Prefix("NOT", u) then Some((OpComplement, 3))
    else if Prefix("in:", u) then Some((Reference, 3))
    else None
  }

  /** How far a scan got: its type, its text, whether a backslash is pending, and what is left. */
  datatype Scan = Scan(ty: TokenType, text: Text, escape: bool, rest: Text)

  predicate Wild(c: byte) { c == ASTERISK || c == QUESTION }

  predicate EndsProp(c: byte) { c == ':' as int || c == '~' as int || c == '<' as int || c == '>' as int }

  predicate Paren(c: byte) { c == '(' as int || c == ')' as int }

  /** Inside quotes: up to the same quote, with backslash escapes. */
  function Quoted(s: Scan, quote: byte): (r: Scan)
    ensures |r.rest| <= |s.rest| && (r.rest != [] ==> !r.escape && r.rest[0] == quote)
    decreases |s.rest|
  {
    if s.rest == [] || (!s.escape && s.rest[0] == quote) then s else
    var c, rest := s.rest[0], s.rest[1..];
    if !s.escape && c == BACKSLASH then Quoted(s.(escape := true, rest := rest), quote)
    else
      var ty := if !s.escape && Wild(c) then Pattern else s.ty;
      Quoted(Scan(ty, s.text + [c], false, rest), quote)
  }

  /** The type of a word once `c` has been seen: INTEGER, SEQUENCE, STRING and PATTERN fall through. */
  function WordType(ty: TokenType, c: byte, escape: bool): TokenType {
    if ty == Pattern then Pattern
    else if ty == Integer && (c == COMMA || c == Numbers.MINUS) then Sequence
    else
      var t := if ty != String && !Numbers.IsDigit(c) && c != COMMA && c != Numbers.MINUS then String else ty;
      if !escape && Wild(c) then Pattern else t
  }

  /** A bare word, `n` characters after its start: up to a space, a parenthesis or the end of a property. */
  function Word(s: Scan, n: nat): (r: Scan)
    ensures |r.rest| <= |s.rest|
    decreases |s.rest|
  {
    if s.rest == [] || (!s.escape && s.rest[0] == SPACE) then s else
    var c, rest := s.rest[0], s.rest[1..];
    if !s.escape && c == BACKSLASH then Word(s.(escape := true, rest := rest), n + 1)
    else if !s.escape && EndsProp(c) then s.(ty := if n == 1 then PropShort else PropLong)
    else if !s.escape && Paren(c) then s
    else Word(Scan(WordType(s.ty, c, s.escape), s.text + [c], false, rest), n + 1)
  }

  lemma WordAdvances(u: Text)
    requires u != [] && u[0] != SPACE && OperatorAt(u) == None
    ensures |Word(Scan(Integer, [], false, u), 0).rest| < |u|
  {
  }

  /** xmmsv_coll_default_parse_tokens: the token and what follows it, or null. */
  function NextToken(s: Text): (r: Option<(Token, Text)>)
    ensures r.Some? ==> |r.value.1| < |s|
  {
    var u := SkipSpaces(s);
    if u == [] then None else
    var op := OperatorAt(u);
    if op.Some? then Some((Op(op.value.0), u[op.value.1..])) else
    if u[0] == QUOTE || u[0] == APOSTROPHE then
      var q := Quoted(Scan(String, [], false, u[1..]), u[0]);
      if q.escape then None else Some((Token(q.ty, q.text), if q.rest != [] then q.rest[1..] else []))
    else
      WordAdvances(u);
      var w := Word(Scan(Integer, [], false, u), 0);
      if w.escape then None else Some((Token(w.ty, w.text), w.rest))
  }

  /** The outer loop: tokens up to the first null one. */
  function Tokenize(s: Text): seq<Token>
    decreases |s|
  {
    match NextToken(s)
    case None => []
    case Some((t, rest)) => [t] + Tokenize(rest)
  }

  /** xmmsv_coll_parse */
  function Parse(pattern: Text): Option<Coll> { Build(Prepared(Tokenize(pattern))) }

  // ---------------------------------------------------------------- the loops

  lemma OneByOne(s: Text, i: nat)
    requires i < |s|
    ensures s[i..] != [] && s[i..][0] == s[i] && s[i..][1..] == s[i + 1..]
  {
  }

  method ScanQuoted(s: Text, start: nat, quote: byte) returns (ty: TokenType, text: Text, escape: bool, i: nat)
    requires start <= |s|
    ensures start <= i <= |s|
    ensures Scan(ty, text, escape, s[i..]) == Quoted(Scan(String, [], false, s[start..]), quote)
  {
    hide Wild;
    ty, text, escape, i := String, [], false, start;
    while i < |s| && (escape || s[i] != quote)
      invariant start <= i <= |s|
      invariant Quoted(Scan(ty, text, escape, s[i..]), quote) == Quoted(Scan(String, [], false, s[start..]), quote)
    {
      OneByOne(s, i);
      if !escape && s[i] == BACKSLASH {
        escape := true;
      } else {
        if escape {
          escape := false;
        } else if Wild(s[i]) {
          ty := Pattern;
        }
        text := text + [s[i]];
      }
      i := i + 1;
    }
  }

  method ScanWord(s: Text, start: nat) returns (ty: TokenType, text: Text, escape: bool, i: nat)
    requires start <= |s|
    ensures start <= i <= |s|
    ensures Scan(ty, text, escape, s[i..]) == Word(Scan(Integer, [], false, s[start..]), 0)
  {
    hide WordType, EndsProp, Paren;
    ty, text, escape, i := Integer, [], false, start;
    while i < |s| && (escape || s[i] != SPACE)
      invariant start <= i <= |s|
      invariant Word(Scan(ty, text, escape, s[i..]), i - start) == Word(Scan(Integer, [], false, s[start..]), 0)
    {
      OneByOne(s, i);
      if !escape {
        if s[i] == BACKSLASH {
          escape := true;
          i := i + 1;
          continue;
        } else if EndsProp(s[i]) {
          ty := if i - start == 1 then PropShort else PropLong;
          break;
        } else if Paren(s[i]) {
          break;
        }
      }
      ty := WordType(ty, s[i], escape);
      if escape {
        escape := false;
      }
      text := text + [s[i]];
      i := i + 1;
    }
  }

  method SkipBlanks(s: Text, start: nat) returns (next: nat)
    requires start <= |s|
    ensures start <= next <= |s| && s[next..] == SkipSpaces(s[start..])
  {
    next := start;
    while next < |s| && s[next] == SPACE
      invariant start <= next <= |s|
      invariant SkipSpaces(s[start..]) == SkipSpaces(s[next..])
    {
      OneByOne(s, next);
      next := next + 1;
    }
  }

  /** One token from offset `start`; `next` is where the following one begins. */
  method ReadToken(s: Text, start: nat) returns (t: Option<Token>, next: nat)
    requires start <= |s|
    ensures t.Some? ==> start < next <= |s|
    ensures NextToken(s[start..]) == if t.Some? then Some((t.value, s[next..])) else None
  {
    hide OperatorAt, Word, Quoted, SkipSpaces;
    next := SkipBlanks(s, start);
    if next == |s| {
      return None, next;
    }
    var u := s[next..];
    var op := OperatorAt(u);
    if op.Some? {
      assert u[op.value.1..] == s[next + op.value.1..];
      return Some(Op(op.value.0)), next + op.value.1;
    }
    OneByOne(s, next);
    var ty, text, escape, i;
    if s[next] == QUOTE || s[next] == APOSTROPHE {
      ty, text, escape, i := ScanQuoted(s, next + 1, s[next]);
      if i < |s| {
        OneByOne(s, i);
        i := i + 1;
      }
    } else {
      WordAdvances(u);
      ty, text, escape, i := ScanWord(s, next);
    }
    t := if escape then None else Some(Token(ty, text));
    next := i;
  }

  /** xmmsv_coll_parse_custom with the default functions: tokenize, prepare in place, build. */
  method ParsePattern(pattern: Text) returns (c: Option<Coll>)
    ensures c == Parse(pattern)
  {
    hide NextToken, Prepared, Build;
    var tokens: seq<Token> := [];
    var at := 0;
    assert pattern[0..] == pattern && [] + Tokenize(pattern) == Tokenize(pattern);
    while at < |pattern|
      invariant at <= |pattern|
      invariant tokens + Tokenize(pattern[at..]) == Tokenize(pattern)
    {
      var t, next := ReadToken(pattern, at);
      if t.None? {
        assert Tokenize(pattern[at..]) == [];
        break;
      }
      assert tokens + ([t.value] + Tokenize(pattern[next..])) == tokens + [t.value] + Tokenize(pattern[next..]);
      tokens, at := tokens + [t.value], next;
    }
    NoTokens();
    assert tokens == Tokenize(pattern);
    var list := new Token[|tokens|](i requires 0 <= i < |tokens| => tokens[i]);
    assert list[..] == tokens;
    PrepareInPlace(list);
    c := Build(list[..]);
  }

  lemma NoTokens()
    ensures Tokenize([]) == []
  {
  }
}
