/**
 Queries as text: the whole pipeline - tokenizer, context pass, parser - gives back the tree of
 every query that is written out.
 */
module QueryText {
  import opened Bytes
  import opened Values
  import opened Tokens
  import opened CollParser
  import opened Prepare
  import opened Printer
  import opened Spelling
  import opened Tokenizer
  import Numbers
  import Utf8

  // ---------------------------------------------------------------- writing

  const BLANK: Text := [SPACE]
  const OPEN: Text := T("(")
  const CLOSE: Text := T(")")
  const OR_OP: Text := T("OR")
  const AND_OP: Text := T("AND")
  const NOT_OP: Text := T("NOT")
  const IN_OP: Text := T("in:")

  /** Which characters of a name are bare; a shorthand is a bare letter. */
  function NameBare(p: Text, how: Style): seq<bool> {
    if NameToken(p, how).ty == PropShort then [true] else how.name
  }

  /** A bare name is no operator, and it is a shorthand if it is a single bare letter. */
  predicate NameWritable(p: Text, how: Style) {
    var t, bare := NameToken(p, how), NameBare(p, how);
    && t.text != [] && Spellable(t.text, bare) && StartsWord(Spell(t.text, bare) + [COLON])
    && (|Spell(t.text, bare)| == 1 <==> t.ty == PropShort)
  }

  /** A string is quoted, or a word that is no operator. */
  predicate StringWritable(s: Text, word: Option<seq<bool>>) {
    word.Some? ==> s != [] && Spellable(s, word.value) && StartsWord(Spell(s, word.value))
  }

  /** The token that it is read as. */
  function Operand(s: Text, word: Option<seq<bool>>): Token {
    Token(if word.Some? then SpellType(Integer, s, word.value) else String, s)
  }

  predicate WritableAs(s: Text, word: Option<seq<bool>>, types: set<TokenType>) {
    StringWritable(s, word) && Operand(s, word).ty in types
  }

  /** What stands in the text for the operand, or for what the context pass makes the operand of. */
  function Given(s: Text, how: Style): Text { if how.given.Some? then how.given.value else s }

  /**
   What the writer can say, with the choices in `how`: a name with any of its characters escaped, or
   a letter that is short for it; a string quoted, or as a word with any of its characters escaped; a
   MATCH behind '~' with what the context pass wraps, or behind ':' with a wildcard in it; a
   comparison with its own number, or with one that the pass turns into it.
   */
  predicate Writable(q: Query, how: Style)
    decreases q, 1
  {
    match q
    case Not(p) => Writable(p, how)
    case And(qs) => WritableAll(qs, how.operands)
    case Or(qs) => WritableAll(qs, how.operands)
    case Has(p) =>
      var t := NameToken(p, how);
      (|t.text| == 1 <==> t.ty == PropShort) && WritableAs(t.text, how.word, {String})
    case Equals(p, s) => p != [] && NameWritable(p, how) && WritableAs(s, how.word, {String, Integer})
    case Match(p, s) => p != [] && NameWritable(p, how) && MatchWritable(s, how)
    case Smaller(p, n) => (p == [] || NameWritable(p, how)) && WritableNumber(n, 1, how.given)
    case Greater(p, n) => (p == [] || NameWritable(p, how)) && WritableNumber(n, -1, how.given)
    case Ref(ns, name) => WritableAs(RefText(ns, name, how), how.word, {String})
    case Any(s) => WritableAs(s, how.word, if how.sign then {String, Integer} else {String})
    case AnyLike(s) => if HasSign(s, how) then MatchWritable(s, how) else WritableAs(s, how.word, {Pattern})
    case Positions(t) => Jointed(t)
    case Ids(t) => Jointed(t)
    case All => true
  }

  /** An operand of MATCH behind its operator. */
  predicate MatchWritable(s: Text, how: Style) {
    && WritableAs(Given(s, how), how.word, if how.pattern then {Pattern} else {String, Integer})
    && (Tilde(how) ==> Fuzzy(Given(s, how)) == s)
  }

  /** A pattern that needs no wrapping is written behind ':'. */
  predicate Tilde(how: Style) { !how.pattern || how.given.Some? }

  predicate WritableAll(qs: seq<Query>, places: seq<Place>)
    decreases qs, 0
  {
    qs == [] || (Writable(qs[0], First(places).style) && WritableAll(qs[1..], Others(places)))
  }

  predicate IsNumber(n: Text) { n != [] && Numbers.Digits(n) }

  predicate WritableNumber(n: Text, delta: int, given: Option<Text>)
    requires -1 <= delta <= 1
  {
    match given
    case None => IsNumber(n)
    case Some(m) => IsNumber(m) && Numbers.IntAdd(m, delta) == Some(n)
  }

  /** Only a quoted string can be an empty name. */
  function WriteName(p: Text, how: Style): Text {
    if p == [] then Quote([]) else Spell(NameToken(p, how).text, NameBare(p, how))
  }

  function WriteString(s: Text, word: Option<seq<bool>>): Text {
    if word.Some? then Spell(s, word.value) else Quote(s)
  }

  function WriteFilter(p: Text, how: Style, op: Text, operand: Text, rest: Text): Text {
    WriteName(p, how) + (op + (operand + rest))
  }

  /** A sequence is bare, or escaped anywhere. */
  function SequenceBare(t: Text, how: Style): seq<bool> { if how.word.Some? then how.word.value else AllBare(t) }

  const NUMBER_SIGN: Text := T("#")
  const IS: Text := T(":")
  const LIKE: Text := T("~")
  const BELOW: Text := T("<")
  const ABOVE: Text := T(">")
  const AT_MOST: Text := T("<=")
  const AT_LEAST: Text := T(">=")

  /** The text of `q` as an operand, in front of `rest`. */
  function Write(q: Query, how: Style, rest: Text): Text
    decreases q, 1
  {
    match q
    case Not(p) => NOT_OP + (BLANK + Write(p, how, rest))
    case And(qs) => OPEN + WriteAnd(qs, how.operands, CLOSE + rest)
    case Or(qs) => OPEN + WriteOr(qs, how.operands, CLOSE + rest)
    case Has(p) => T("+") + (WriteString(NameToken(p, how).text, how.word) + rest)
    case Equals(p, s) => WriteFilter(p, how, IS, WriteString(s, how.word), rest)
    case Match(p, s) =>
      WriteFilter(p, how, if Tilde(how) then LIKE else IS, WriteString(Given(s, how), how.word), rest)
    case Smaller(p, n) => WriteFilter(p, how, if how.given.Some? then AT_MOST else BELOW, Given(n, how), rest)
    case Greater(p, n) => WriteFilter(p, how, if how.given.Some? then AT_LEAST else ABOVE, Given(n, how), rest)
    case Ref(ns, name) => IN_OP + (WriteString(RefText(ns, name, how), how.word) + rest)
    case Any(s) => if how.sign then IS + (WriteString(s, how.word) + rest) else WriteString(s, how.word) + rest
    case AnyLike(s) =>
      if HasSign(s, how) then (if Tilde(how) then LIKE else IS) + (WriteString(Given(s, how), how.word) + rest)
      else WriteString(s, how.word) + rest
    case Positions(t) => Spell(t, SequenceBare(t, how)) + rest
    case Ids(t) => NUMBER_SIGN + (Spell(t, SequenceBare(t, how)) + rest)
    case All => STAR + rest
  }

  function WriteAnd(qs: seq<Query>, places: seq<Place>, rest: Text): Text
    decreases qs, 0
  {
    if qs == [] then rest
    else if |qs| == 1 then Write(qs[0], First(places).style, rest)
    else Write(qs[0], First(places).style, BLANK + WriteNext(qs, places, WriteAnd(qs[1..], Others(places), rest)))
  }

  /** The second operand, after its AND if it is written out. */
  function WriteNext(qs: seq<Query>, places: seq<Place>, text: Text): Text
    requires |qs| >= 2
  {
    if First(Others(places)).written then AND_OP + (BLANK + text) else text
  }

  function WriteOr(qs: seq<Query>, places: seq<Place>, rest: Text): Text
    decreases qs, 0
  {
    if qs == [] then rest
    else if |qs| == 1 then Write(qs[0], First(places).style, rest)
    else Write(qs[0], First(places).style, BLANK + (OR_OP + (BLANK + WriteOr(qs[1..], Others(places), rest))))
  }

  function WriteQuery(q: Query, how: Style): Text {
    match q
    case And(qs) => WriteAnd(qs, how.operands, [])
    case Or(qs) => WriteOr(qs, how.operands, [])
    case _ => Write(q, how, [])
  }

  // ---------------------------------------------------------------- tokens of what was written

  /** An operator and what follows it. */
  lemma OpToken(word: Text, ty: TokenType, rest: Text)
    requires OperatorAt(word + rest) == Some((ty, |word|)) && word != [] && word[0] != SPACE
    ensures Tokenize(word + rest) == [Op(ty)] + Tokenize(rest)
  {
    hide OperatorAt;
    assert (word + rest)[|word|..] == rest;
  }

  lemma BlankSkipped(rest: Text)
    ensures Tokenize(BLANK + rest) == Tokenize(rest)
  {
    assert (BLANK + rest)[1..] == rest;
    assert SkipSpaces(BLANK + rest) == SkipSpaces(rest);
    assert NextToken(BLANK + rest) == NextToken(rest);
  }

  function RawName(p: Text, how: Style): Token { if p == [] then Token(String, []) else NameToken(p, how) }

  function RawFilter(p: Text, how: Style, op: TokenType, operand: Token): seq<Token> {
    [RawName(p, how), Op(op), operand]
  }

  /** The tokens before the context pass, which has names to retype and comparisons to make strict. */
  function Raw(q: Query, how: Style): seq<Token>
    decreases q, 1
  {
    match q
    case Not(p) => [Op(OpComplement)] + Raw(p, how)
    case And(qs) => [Op(GroupOpen)] + (RawAnd(qs, how.operands) + [Op(GroupClose)])
    case Or(qs) => [Op(GroupOpen)] + (RawOr(qs, how.operands) + [Op(GroupClose)])
    case Has(p) => [Op(FilHas), Operand(NameToken(p, how).text, how.word)]
    case Equals(p, s) => RawFilter(p, how, FilEquals, Operand(s, how.word))
    case Match(p, s) =>
      RawFilter(p, how, if Tilde(how) then FilMatch else FilEquals, Operand(Given(s, how), how.word))
    case Smaller(p, n) =>
      RawFilter(p, how, if how.given.Some? then FilSmallerEq else FilSmaller, Token(Integer, Given(n, how)))
    case Greater(p, n) =>
      RawFilter(p, how, if how.given.Some? then FilGreaterEq else FilGreater, Token(Integer, Given(n, how)))
    case Ref(ns, name) => [Op(Reference), Operand(RefText(ns, name, how), how.word)]
    case Any(s) => if how.sign then [Op(FilEquals), Operand(s, how.word)] else [Operand(s, how.word)]
    case AnyLike(s) =>
      if HasSign(s, how) then [Op(if Tilde(how) then FilMatch else FilEquals), Operand(Given(s, how), how.word)]
      else [Operand(s, how.word)]
    case _ => PrintExpr(q, how)
  }

  function RawAnd(qs: seq<Query>, places: seq<Place>): seq<Token>
    decreases qs, 0
  {
    if qs == [] then [] else Raw(qs[0], First(places).style) + (Juncture(qs[1..], Others(places)) + RawAnd(qs[1..], Others(places)))
  }

  function RawOr(qs: seq<Query>, places: seq<Place>): seq<Token>
    decreases qs, 0
  {
    if qs == [] then [] else
    Raw(qs[0], First(places).style) + if |qs| == 1 then [] else [Op(OpUnion)] + RawOr(qs[1..], Others(places))
  }

  lemma TokenThen(s: Text, t: Token, rest: Text)
    requires NextToken(s) == Some((t, rest))
    ensures Tokenize(s) == [t] + Tokenize(rest)
  {
    hide NextToken;
  }

  lemma NameTokens(p: Text, how: Style, tail: Text)
    requires p == [] || NameWritable(p, how)
    requires tail != [] && EndsProp(tail[0])
    ensures Tokenize(WriteName(p, how) + tail) == [RawName(p, how)] + Tokenize(tail)
  {
    hide NextToken, Spell, Spellable, StartsWord, EndsProp, Quote;
    if p == [] {
      QuoteToken([], tail);
    } else {
      NameSpelled(NameToken(p, how).text, NameBare(p, how), tail);
    }
    TokenThen(WriteName(p, how) + tail, RawName(p, how), tail);
  }

  lemma StringToken(s: Text, word: Option<seq<bool>>, rest: Text)
    requires StringWritable(s, word) && Boundary(rest)
    ensures NextToken(WriteString(s, word) + rest) == Some((Operand(s, word), rest))
  {
    hide NextToken, Spell, Spellable, StartsWord, SpellType, Boundary, Quote;
    if word.Some? {
      WordSpelled(s, word.value, rest);
    } else {
      QuoteToken(s, rest);
    }
  }

  lemma FilterTokens(p: Text, how: Style, op: Text, ty: TokenType, operand: Text, value: Token, rest: Text)
    requires p == [] || NameWritable(p, how)
    requires op != [] && EndsProp(op[0])
    requires NextToken(operand + rest) == Some((value, rest))
    requires OperatorAt(op + (operand + rest)) == Some((ty, |op|))
    ensures Tokenize(WriteFilter(p, how, op, operand, rest)) == RawFilter(p, how, ty, value) + Tokenize(rest)
  {
    hide NextToken, OperatorAt, WriteName, RawName, Tokenize, NameWritable;
    var tail := op + (operand + rest);
    NameTokens(p, how, tail);
    OpToken(op, ty, operand + rest);
    TokenThen(operand + rest, value, rest);
  }

  /** ':' and '~' are operators by themselves, '<' and '>' unless '=' follows. */
  lemma FilterOperators(rest: Text)
    ensures OperatorAt(IS + rest) == Some((FilEquals, 1))
    ensures OperatorAt(LIKE + rest) == Some((FilMatch, 1))
    ensures rest != [] && rest[0] != '=' as int ==> OperatorAt(BELOW + rest) == Some((FilSmaller, 1))
    ensures rest != [] && rest[0] != '=' as int ==> OperatorAt(ABOVE + rest) == Some((FilGreater, 1))
  {
    var u, v := BELOW + rest, ABOVE + rest;
    if rest != [] {
      assert u[1] == rest[0] && v[1] == rest[0];
      assert "<="[1] == '=' && ">="[1] == '=' && ">="[0] == '>' && "<="[0] == '<';
    }
  }

  lemma StrictOperators(rest: Text)
    ensures OperatorAt(AT_MOST + rest) == Some((FilSmallerEq, 2))
    ensures OperatorAt(AT_LEAST + rest) == Some((FilGreaterEq, 2))
  {
    assert forall i :: 0 <= i < 2 ==> (AT_MOST + rest)[i] == "<="[i] as int;
    assert forall i :: 0 <= i < 2 ==> (AT_LEAST + rest)[i] == ">="[i] as int;
    assert "<="[0] != ">="[0];
  }

  /** A comparison, strict or not, with its number. */
  lemma ComparisonTokens(p: Text, how: Style, strict: Text, strictTy: TokenType, eq: Text, eqTy: TokenType, n: Text, rest: Text)
    requires Boundary(rest) && IsNumber(Given(n, how)) && (p == [] || NameWritable(p, how))
    requires (strict == BELOW && strictTy == FilSmaller && eq == AT_MOST && eqTy == FilSmallerEq)
          || (strict == ABOVE && strictTy == FilGreater && eq == AT_LEAST && eqTy == FilGreaterEq)
    ensures Tokenize(WriteFilter(p, how, if how.given.Some? then eq else strict, Given(n, how), rest))
         == RawFilter(p, how, if how.given.Some? then eqTy else strictTy, Token(Integer, Given(n, how))) + Tokenize(rest)
  {
    hide NextToken, OperatorAt, Tokenize, WriteFilter, RawFilter, Boundary, NameWritable;
    var m := Given(n, how);
    NumberToken(m, rest);
    FilterOperators(m + rest);
    StrictOperators(m + rest);
    assert (m + rest)[0] == m[0] && Numbers.IsDigit(m[0]);
    if how.given.Some? {
      FilterTokens(p, how, eq, eqTy, m, Token(Integer, m), rest);
    } else {
      FilterTokens(p, how, strict, strictTy, m, Token(Integer, m), rest);
    }
  }

  /** A comparison with a string. */
  lemma StringFilterTokens(p: Text, how: Style, op: Text, ty: TokenType, s: Text, rest: Text)
    requires NameWritable(p, how) && StringWritable(s, how.word) && Boundary(rest)
    requires (op == IS && ty == FilEquals) || (op == LIKE && ty == FilMatch)
    ensures Tokenize(WriteFilter(p, how, op, WriteString(s, how.word), rest))
         == RawFilter(p, how, ty, Operand(s, how.word)) + Tokenize(rest)
  {
    hide NextToken, OperatorAt, Tokenize, WriteFilter, RawFilter, Boundary, NameWritable, StringWritable, WriteString, Operand;
    StringToken(s, how.word, rest);
    FilterOperators(WriteString(s, how.word) + rest);
    FilterTokens(p, how, op, ty, WriteString(s, how.word), Operand(s, how.word), rest);
  }

  /** An operator with a string behind it. */
  lemma OperandTokens(word: Text, ty: TokenType, s: Text, bare: Option<seq<bool>>, rest: Text)
    requires (word == T("+") && ty == FilHas) || (word == IN_OP && ty == Reference)
          || (word == IS && ty == FilEquals) || (word == LIKE && ty == FilMatch)
    requires StringWritable(s, bare) && Boundary(rest)
    ensures Tokenize(word + (WriteString(s, bare) + rest)) == [Op(ty), Operand(s, bare)] + Tokenize(rest)
  {
    hide NextToken, OperatorAt, Tokenize, StringWritable, WriteString, Operand, Boundary;
    var text := WriteString(s, bare) + rest;
    PlusOperator(text);
    WordOperators(text);
    FilterOperators(text);
    OpToken(word, ty, text);
    StringToken(s, bare, rest);
    TokenThen(text, Operand(s, bare), rest);
  }

  lemma AloneTokens(s: Text, word: Option<seq<bool>>, rest: Text)
    requires StringWritable(s, word) && Boundary(rest)
    ensures Tokenize(WriteString(s, word) + rest) == [Operand(s, word)] + Tokenize(rest)
  {
    hide NextToken, Tokenize, StringWritable, WriteString, Operand, Boundary;
    StringToken(s, word, rest);
    TokenThen(WriteString(s, word) + rest, Operand(s, word), rest);
  }

  lemma SequenceTokens(t: Text, bare: seq<bool>, rest: Text)
    requires Jointed(t) && Boundary(rest)
    ensures Tokenize(Spell(t, bare) + rest) == [SequenceToken(t)] + Tokenize(rest)
    ensures Tokenize(NUMBER_SIGN + (Spell(t, bare) + rest)) == [Op(SymbolId), SequenceToken(t)] + Tokenize(rest)
  {
    hide NextToken, OperatorAt, Tokenize, Spell, Boundary, Jointed, Separated;
    JointToken(t, bare, rest);
    TokenThen(Spell(t, bare) + rest, SequenceToken(t), rest);
    NumberSign(Spell(t, bare) + rest);
    OpToken(NUMBER_SIGN, SymbolId, Spell(t, bare) + rest);
  }

  lemma NumberSign(rest: Text)
    ensures OperatorAt(NUMBER_SIGN + rest) == Some((SymbolId, 1))
  {
  }

  lemma FieldTokens(q: Query, how: Style, rest: Text)
    requires Writable(q, how) && Boundary(rest) && (q.Has? || q.Equals? || q.Match? || q.Smaller? || q.Greater?)
    ensures Tokenize(Write(q, how, rest)) == Raw(q, how) + Tokenize(rest)
  {
    hide NextToken, OperatorAt, Tokenize, WriteString, WriteFilter, RawFilter, Boundary, Fuzzy, Operand;
    hide NameWritable, StringWritable;
    match q
    case Has(p) => OperandTokens(T("+"), FilHas, NameToken(p, how).text, how.word, rest);
    case Equals(p, s) => StringFilterTokens(p, how, IS, FilEquals, s, rest);
    case Match(p, s) =>
      if Tilde(how) {
        StringFilterTokens(p, how, LIKE, FilMatch, Given(s, how), rest);
      } else {
        StringFilterTokens(p, how, IS, FilEquals, Given(s, how), rest);
      }
    case Smaller(p, n) => ComparisonTokens(p, how, BELOW, FilSmaller, AT_MOST, FilSmallerEq, n, rest);
    case Greater(p, n) => ComparisonTokens(p, how, ABOVE, FilGreater, AT_LEAST, FilGreaterEq, n, rest);
  }

  lemma LeafTokens(q: Query, how: Style, rest: Text)
    requires Writable(q, how) && Boundary(rest) && !q.Not? && !q.And? && !q.Or?
    ensures Tokenize(Write(q, how, rest)) == Raw(q, how) + Tokenize(rest)
  {
    hide NextToken, OperatorAt, Tokenize, WriteString, WriteFilter, RawFilter, Boundary, Fuzzy, Operand;
    hide NameWritable, StringWritable, RefText, SequenceToken, Spell, Jointed;
    match q
    case Ref(ns, name) => OperandTokens(IN_OP, Reference, RefText(ns, name, how), how.word, rest);
    case Any(s) =>
      if how.sign {
        OperandTokens(IS, FilEquals, s, how.word, rest);
      } else {
        AloneTokens(s, how.word, rest);
      }
    case AnyLike(s) =>
      if !HasSign(s, how) {
        AloneTokens(s, how.word, rest);
      } else if Tilde(how) {
        OperandTokens(LIKE, FilMatch, Given(s, how), how.word, rest);
      } else {
        OperandTokens(IS, FilEquals, Given(s, how), how.word, rest);
      }
    case Positions(t) => SequenceTokens(t, SequenceBare(t, how), rest);
    case Ids(t) => SequenceTokens(t, SequenceBare(t, how), rest);
    case All =>
      StarToken(rest);
      TokenThen(STAR + rest, Token(Pattern, STAR), rest);
    case _ => FieldTokens(q, how, rest);
  }

  lemma PlusOperator(rest: Text)
    ensures OperatorAt(T("+") + rest) == Some((FilHas, 1))
    ensures OperatorAt(OPEN + rest) == Some((GroupOpen, 1)) && OperatorAt(CLOSE + rest) == Some((GroupClose, 1))
  {
  }

  lemma WordOperators(rest: Text)
    ensures OperatorAt(IN_OP + rest) == Some((Reference, 3))
    ensures OperatorAt(OR_OP + rest) == Some((OpUnion, 2))
    ensures OperatorAt(AND_OP + rest) == Some((OpIntersection, 3))
    ensures OperatorAt(NOT_OP + rest) == Some((OpComplement, 3))
  {
    assert forall i :: 0 <= i < 3 ==> (IN_OP + rest)[i] == "in:"[i] as int;
    assert forall i :: 0 <= i < 2 ==> (OR_OP + rest)[i] == "OR"[i] as int;
    assert forall i :: 0 <= i < 3 ==> (AND_OP + rest)[i] == "AND"[i] as int;
    assert forall i :: 0 <= i < 3 ==> (NOT_OP + rest)[i] == "NOT"[i] as int;
  }

  lemma OpThen(word: Text, ty: TokenType, text: Text)
    requires word in {OR_OP, AND_OP, NOT_OP} && OperatorAt(word + (BLANK + text)) == Some((ty, |word|))
    ensures Tokenize(word + (BLANK + text)) == [Op(ty)] + Tokenize(text)
  {
    hide OperatorAt, NextToken, Tokenize;
    OpToken(word, ty, BLANK + text);
    BlankSkipped(text);
  }

  /** Writing and tokenizing a query gives its raw tokens, and leaves what follows alone. */
  lemma {:induction false} TokensOf(q: Query, how: Style, rest: Text)
    requires Writable(q, how) && WfQuery(q) && Boundary(rest)
    ensures Tokenize(Write(q, how, rest)) == Raw(q, how) + Tokenize(rest)
    decreases q, 1
  {
    hide OperatorAt, Tokenize, WriteAnd, WriteOr, RawAnd, RawOr;
    match q
    case Not(p) =>
      WordOperators(BLANK + Write(p, how, rest));
      OpThen(NOT_OP, OpComplement, Write(p, how, rest));
      TokensOf(p, how, rest);
      Regroup([Op(OpComplement)], Raw(p, how), Tokenize(rest));
    case And(qs) =>
      AndTokens(qs, how.operands, CLOSE + rest);
      GroupTokens(WriteAnd(qs, how.operands, CLOSE + rest), RawAnd(qs, how.operands), rest);
    case Or(qs) =>
      OrTokens(qs, how.operands, CLOSE + rest);
      GroupTokens(WriteOr(qs, how.operands, CLOSE + rest), RawOr(qs, how.operands), rest);
    case _ => LeafTokens(q, how, rest);
  }

  lemma GroupTokens(text: Text, raw: seq<Token>, rest: Text)
    requires Tokenize(text) == raw + Tokenize(CLOSE + rest)
    ensures Tokenize(OPEN + text) == [Op(GroupOpen)] + (raw + [Op(GroupClose)]) + Tokenize(rest)
  {
    hide OperatorAt, NextToken, Tokenize;
    PlusOperator(text);
    PlusOperator(rest);
    OpToken(OPEN, GroupOpen, text);
    OpToken(CLOSE, GroupClose, rest);
    Regroup(raw, [Op(GroupClose)], Tokenize(rest));
    Regroup([Op(GroupOpen)], raw + [Op(GroupClose)], Tokenize(rest));
  }

  lemma {:induction false} AndTokens(qs: seq<Query>, places: seq<Place>, rest: Text)
    requires qs != [] && Boundary(rest)
    requires WritableAll(qs, places) && forall i :: 0 <= i < |qs| ==> WfQuery(qs[i])
    ensures Tokenize(WriteAnd(qs, places, rest)) == RawAnd(qs, places) + Tokenize(rest)
    decreases qs, 0
  {
    hide OperatorAt, Tokenize, Write, Raw, Juncture;
    var tail := qs[1..];
    RawAndStep(qs, places, Tokenize(rest));
    if |qs| == 1 {
      TokensOf(qs[0], First(places).style, rest);
    } else {
      var text := WriteAnd(tail, Others(places), rest);
      TokensOf(qs[0], First(places).style, BLANK + WriteNext(qs, places, text));
      BlankSkipped(WriteNext(qs, places, text));
      NextTokens(qs, places, text);
      AndTokens(tail, Others(places), rest);
    }
  }

  lemma NextTokens(qs: seq<Query>, places: seq<Place>, text: Text)
    requires |qs| >= 2
    ensures Tokenize(WriteNext(qs, places, text)) == Juncture(qs[1..], Others(places)) + Tokenize(text)
  {
    hide OperatorAt, Tokenize;
    WordOperators(BLANK + text);
    if First(Others(places)).written {
      OpThen(AND_OP, OpIntersection, text);
    }
  }

  lemma RawAndStep(qs: seq<Query>, places: seq<Place>, t: seq<Token>)
    requires qs != []
    ensures RawAnd(qs, places) + t
         == Raw(qs[0], First(places).style) + (if |qs| == 1 then t else Juncture(qs[1..], Others(places)) + (RawAnd(qs[1..], Others(places)) + t))
  {
    hide Raw;
    var a, j, r := Raw(qs[0], First(places).style), Juncture(qs[1..], Others(places)), RawAnd(qs[1..], Others(places));
    Regroup(a, j + r, t);
    Regroup(j, r, t);
    if |qs| == 1 {
      assert j + r == [] && [] + t == t;
    }
  }

  lemma RawOrStep(qs: seq<Query>, places: seq<Place>, t: seq<Token>)
    requires qs != []
    ensures RawOr(qs, places) + t
         == Raw(qs[0], First(places).style) + (if |qs| == 1 then t else [Op(OpUnion)] + (RawOr(qs[1..], Others(places)) + t))
  {
    hide Raw;
    var a := Raw(qs[0], First(places).style);
    if |qs| == 1 {
      assert a + [] + t == a + t;
    } else {
      Regroup(a, [Op(OpUnion)] + RawOr(qs[1..], Others(places)), t);
      Regroup([Op(OpUnion)], RawOr(qs[1..], Others(places)), t);
    }
  }

  lemma {:induction false} OrTokens(qs: seq<Query>, places: seq<Place>, rest: Text)
    requires qs != [] && Boundary(rest)
    requires WritableAll(qs, places) && forall i :: 0 <= i < |qs| ==> WfQuery(qs[i])
    ensures Tokenize(WriteOr(qs, places, rest)) == RawOr(qs, places) + Tokenize(rest)
    decreases qs, 0
  {
    hide OperatorAt, Tokenize, Write, Raw;
    var tail := qs[1..];
    RawOrStep(qs, places, Tokenize(rest));
    if |qs| == 1 {
      TokensOf(qs[0], First(places).style, rest);
    } else {
      var text := WriteOr(tail, Others(places), rest);
      TokensOf(qs[0], First(places).style, BLANK + (OR_OP + (BLANK + text)));
      BlankSkipped(OR_OP + (BLANK + text));
      WordOperators(BLANK + text);
      OpThen(OR_OP, OpUnion, text);
      OrTokens(tail, Others(places), rest);
    }
  }

  // ---------------------------------------------------------------- the context pass over them

  /** A token that, as the previous one, changes nothing about a token that is no ordering. */
  predicate Calm(t: Token) { t.ty !in {FilHas, FilMatch, FilEquals, FilGreaterEq, FilSmallerEq} }

  lemma CalmStep(prev: Token, t: Token, rest: seq<Token>)
    requires Calm(prev) && (!Ordering(t.ty) || prev.ty == PropLong)
    ensures PrepareFrom(prev, [t] + rest) == [prev] + PrepareFrom(t, rest)
  {
    hide Fuzzy, Strict, AsProp;
    assert Adjust(prev, t) == (prev, t);
    AdjustStep(prev, t, prev, t, rest);
  }

  lemma AdjustStep(prev: Token, t: Token, prev': Token, t': Token, rest: seq<Token>)
    requires Adjust(prev, t) == (prev', t')
    ensures PrepareFrom(prev, [t] + rest) == [prev'] + PrepareFrom(t', rest)
  {
    hide Adjust;
    assert ([t] + rest)[1..] == rest;
  }

  /** The pass turns `raw` into `out` behind any calm token, and goes on from the last token of `out`. */
  ghost predicate Settles(prev: Token, raw: seq<Token>, out: seq<Token>, rest: seq<Token>) {
    && out != [] && Calm(out[|out| - 1])
    && PrepareFrom(prev, raw + rest) == [prev] + out[..|out| - 1] + PrepareFrom(out[|out| - 1], rest)
  }

  lemma SettlesConcat(prev: Token, raw: seq<Token>, out: seq<Token>, raw': seq<Token>, out': seq<Token>, rest: seq<Token>)
    requires Settles(prev, raw, out, raw' + rest) && Settles(out[|out| - 1], raw', out', rest)
    ensures Settles(prev, raw + raw', out + out', rest)
  {
    hide PrepareFrom, Calm;
    var last := out[|out| - 1];
    var o := out + out';
    Regroup(raw, raw', rest);
    assert o[|o| - 1] == out'[|out'| - 1];
    assert o[..|o| - 1] == out[..|out| - 1] + ([last] + out'[..|out'| - 1]);
    var tail := PrepareFrom(out'[|out'| - 1], rest);
    var front := [prev] + out[..|out| - 1];
    Regroup(front, [last] + out'[..|out'| - 1], tail);
    Regroup([prev], out[..|out| - 1], [last] + out'[..|out'| - 1]);
  }

  lemma SettlesOne(prev: Token, t: Token, rest: seq<Token>)
    requires Calm(prev) && Calm(t) && !Ordering(t.ty)
    ensures Settles(prev, [t], [t], rest)
  {
    hide PrepareFrom, Calm;
    CalmStep(prev, t, rest);
    assert [prev] + [t][..0] == [prev];
  }

  lemma SettlesTwo(prev: Token, a: Token, b: Token, b': Token, rest: seq<Token>)
    requires Calm(prev) && !Ordering(a.ty) && Adjust(a, b) == (a, b') && Calm(b')
    ensures Settles(prev, [a, b], [a, b'], rest)
  {
    hide PrepareFrom, Calm, Adjust;
    assert [a, b] + rest == [a] + ([b] + rest);
    CalmStep(prev, a, [b] + rest);
    AdjustStep(a, b, a, b', rest);
    assert [a, b'][..1] == [a];
    Regroup([prev], [a], PrepareFrom(b', rest));
  }

  /** Three tokens, the second and third of which may change the one before. */
  lemma SettlesThree(prev: Token, a: Token, o: Token, v: Token, a': Token, o': Token, v': Token, rest: seq<Token>)
    requires Calm(prev) && !Ordering(a.ty) && Adjust(a, o) == (a', o) && Adjust(o, v) == (o', v') && Calm(v')
    ensures Settles(prev, [a, o, v], [a', o', v'], rest)
  {
    hide PrepareFrom, Adjust, Calm;
    assert [a, o, v] + rest == [a] + ([o] + ([v] + rest));
    CalmStep(prev, a, [o] + ([v] + rest));
    AdjustStep(a, o, a', o, [v] + rest);
    AdjustStep(o, v, o', v', rest);
    assert [a', o', v'][..2] == [a', o'];
    assert [prev] + ([a'] + ([o'] + PrepareFrom(v', rest))) == [prev] + [a', o'] + PrepareFrom(v', rest);
  }

  lemma LongNames(c: byte)
    ensures LongName(c).Some? ==> |LongName(c).value| > 1
  {
  }

  /** No letter is short for the empty name. */
  lemma EmptyName(how: Style)
    ensures NameToken([], how) == Token(PropLong, [])
  {
    hide LongName;
    if how.short.Some? { LongNames(how.short.value); }
  }

  /** An empty name gets its type from the comparison behind it. */
  lemma SettlesFilter(prev: Token, p: Text, how: Style, op: TokenType, v: Token, op': TokenType, v': Token, rest: seq<Token>)
    requires Calm(prev) && (Ordering(op) || (p != [] && op in {FilEquals, FilMatch}))
    requires Adjust(Op(op), v) == (Op(op'), v') && Calm(v')
    ensures Settles(prev, RawFilter(p, how, op, v), Binary(NameToken(p, how), op', v'), rest)
  {
    hide Settles, Calm, Fuzzy, Strict, LongName;
    var a, a' := RawName(p, how), NameToken(p, how);
    if p == [] { EmptyName(how); }
    assert Adjust(a, Op(op)) == (a', Op(op));
    hide Adjust;
    SettlesThree(prev, a, Op(op), v, a', Op(op'), v', rest);
  }

  lemma NumberAdjusts(eq: TokenType, strict: TokenType, delta: int, n: Text, given: Option<Text>)
    requires -1 <= delta <= 1 && WritableNumber(n, delta, given)
    requires (eq == FilSmallerEq && strict == FilSmaller && delta == 1) || (eq == FilGreaterEq && strict == FilGreater && delta == -1)
    ensures var v := Token(Integer, n);
            && Calm(v) && Adjust(Op(strict), v) == (Op(strict), v)
            && (given.Some? ==> Adjust(Op(eq), Token(Integer, given.value)) == (Op(strict), v))
  {
    hide Numbers.IntAdd, Numbers.Digits, Fuzzy, AsProp;
  }

  lemma SettlesComparison(prev: Token, p: Text, how: Style, eq: TokenType, strict: TokenType, delta: int, n: Text, rest: seq<Token>)
    requires Calm(prev) && -1 <= delta <= 1 && WritableNumber(n, delta, how.given)
    requires (eq == FilSmallerEq && strict == FilSmaller && delta == 1) || (eq == FilGreaterEq && strict == FilGreater && delta == -1)
    ensures Settles(prev, RawFilter(p, how, if how.given.Some? then eq else strict, Token(Integer, Given(n, how))),
                    Binary(NameToken(p, how), strict, Token(Integer, n)), rest)
  {
    hide Settles, RawFilter, Binary, Adjust, Calm, Numbers.IntAdd, Numbers.Digits, NameToken;
    var v := Token(Integer, n);
    NumberAdjusts(eq, strict, delta, n, how.given);
    if how.given.Some? {
      SettlesFilter(prev, p, how, eq, Token(Integer, how.given.value), strict, v, rest);
    } else {
      SettlesFilter(prev, p, how, strict, v, strict, v, rest);
    }
  }

  lemma SettlesHas(prev: Token, name: Token, rest: seq<Token>)
    requires Calm(prev) && name.ty in {PropShort, PropLong} && (|name.text| == 1 <==> name.ty == PropShort)
    ensures Settles(prev, [Op(FilHas), Token(String, name.text)], [Op(FilHas), name], rest)
  {
    hide PrepareFrom, Settles, Fuzzy, Strict;
    SettlesTwo(prev, Op(FilHas), Token(String, name.text), name, rest);
  }

  /** A MATCH behind '~', or behind ':' if there is a wildcard in it. */
  lemma SettlesMatch(prev: Token, p: Text, s: Text, how: Style, rest: seq<Token>)
    requires Calm(prev) && Writable(Match(p, s), how)
    ensures Settles(prev, Raw(Match(p, s), how), PrintExpr(Match(p, s), how), rest)
  {
    hide PrepareFrom, Settles, Fuzzy, Binary, RawFilter, NameWritable, StringWritable, NameToken, Strict, SpellType;
    var given, v := Operand(Given(s, how), how.word), PatternToken(s, how);
    if Tilde(how) {
      SettlesFilter(prev, p, how, FilMatch, given, FilMatch, v, rest);
    } else {
      SettlesFilter(prev, p, how, FilEquals, given, FilMatch, v, rest);
    }
  }

  /** Two tokens, the second of which may change the first. */
  lemma SettlesPair(prev: Token, o: Token, v: Token, o': Token, v': Token, rest: seq<Token>)
    requires Calm(prev) && !Ordering(o.ty) && Adjust(o, v) == (o', v') && Calm(v')
    ensures Settles(prev, [o, v], [o', v'], rest)
  {
    hide PrepareFrom, Calm, Adjust;
    assert [o, v] + rest == [o] + ([v] + rest);
    CalmStep(prev, o, [v] + rest);
    AdjustStep(o, v, o', v', rest);
    assert [o', v'][..1] == [o'];
    Regroup([prev], [o'], PrepareFrom(v', rest));
  }

  lemma SettlesLike(prev: Token, s: Text, how: Style, rest: seq<Token>)
    requires Calm(prev) && Writable(AnyLike(s), how)
    ensures Settles(prev, Raw(AnyLike(s), how), PrintExpr(AnyLike(s), how), rest)
  {
    hide PrepareFrom, Settles, Fuzzy, StringWritable, Strict, SpellType;
    var given, v := Operand(Given(s, how), how.word), PatternToken(s, how);
    if !HasSign(s, how) {
      SettlesOne(prev, Token(Pattern, s), rest);
    } else if Tilde(how) {
      SettlesPair(prev, Op(FilMatch), given, Op(FilMatch), v, rest);
    } else {
      SettlesPair(prev, Op(FilEquals), given, Op(FilMatch), v, rest);
    }
  }

  lemma FieldSettles(q: Query, how: Style, prev: Token, rest: seq<Token>)
    requires Writable(q, how) && Calm(prev) && (q.Has? || q.Equals? || q.Match? || q.Smaller? || q.Greater?)
    ensures Settles(prev, Raw(q, how), PrintExpr(q, how), rest)
  {
    hide PrepareFrom, Settles, Fuzzy, Binary, RawFilter, NameWritable, StringWritable, LongName, Strict, SpellType;
    match q
    case Has(p) => SettlesHas(prev, NameToken(p, how), rest);
    case Equals(p, s) =>
      SettlesFilter(prev, p, how, FilEquals, Operand(s, how.word), FilEquals, Token(String, s), rest);
    case Match(p, s) => SettlesMatch(prev, p, s, how, rest);
    case Smaller(p, n) => SettlesComparison(prev, p, how, FilSmallerEq, FilSmaller, 1, n, rest);
    case Greater(p, n) => SettlesComparison(prev, p, how, FilGreaterEq, FilGreater, -1, n, rest);
  }

  lemma LeafSettles(q: Query, how: Style, prev: Token, rest: seq<Token>)
    requires Writable(q, how) && Calm(prev) && !q.Not? && !q.And? && !q.Or?
    ensures Settles(prev, Raw(q, how), PrintExpr(q, how), rest)
  {
    hide PrepareFrom, Settles, Fuzzy, Binary, RawFilter, NameWritable, StringWritable, LongName, Strict, SpellType;
    hide RefText, Separated;
    match q
    case Ref(ns, name) =>
      var t := Token(String, RefText(ns, name, how));
      SettlesTwo(prev, Op(Reference), t, t, rest);
    case Any(s) =>
      if how.sign {
        SettlesPair(prev, Op(FilEquals), Operand(s, how.word), Op(FilEquals), Token(String, s), rest);
      } else {
        SettlesOne(prev, Token(String, s), rest);
      }
    case AnyLike(s) => SettlesLike(prev, s, how, rest);
    case Positions(t) => SettlesOne(prev, SequenceToken(t), rest);
    case Ids(t) => SettlesTwo(prev, Op(SymbolId), SequenceToken(t), SequenceToken(t), rest);
    case All => SettlesOne(prev, Token(Pattern, STAR), rest);
    case _ => FieldSettles(q, how, prev, rest);
  }

  lemma SettlesEnds(prev: Token, raw: seq<Token>, out: seq<Token>, rest: seq<Token>)
    requires Settles(prev, raw, out, rest)
    ensures out != [] && Calm(out[|out| - 1])
  {
  }

  lemma {:induction false} ExprSettles(q: Query, how: Style, prev: Token, rest: seq<Token>)
    requires Writable(q, how) && WfQuery(q) && Calm(prev)
    ensures Settles(prev, Raw(q, how), PrintExpr(q, how), rest)
    decreases q, 1
  {
    hide PrepareFrom, Settles, RawAnd, RawOr, PrintAnd, PrintOr;
    match q
    case Not(p) =>
      var t := Op(OpComplement);
      SettlesOne(prev, t, Raw(p, how) + rest);
      ExprSettles(p, how, t, rest);
      SettlesConcat(prev, [t], [t], Raw(p, how), PrintExpr(p, how), rest);
    case And(qs) =>
      var close := [Op(GroupClose)];
      AndSettles(qs, how.operands, Op(GroupOpen), close + rest);
      GroupSettles(prev, RawAnd(qs, how.operands), PrintAnd(qs, how.operands), rest);
    case Or(qs) =>
      var close := [Op(GroupClose)];
      OrSettles(qs, how.operands, Op(GroupOpen), close + rest);
      GroupSettles(prev, RawOr(qs, how.operands), PrintOr(qs, how.operands), rest);
    case _ => LeafSettles(q, how, prev, rest);
  }

  lemma GroupSettles(prev: Token, raw: seq<Token>, out: seq<Token>, rest: seq<Token>)
    requires Calm(prev) && Settles(Op(GroupOpen), raw, out, [Op(GroupClose)] + rest)
    ensures Settles(prev, [Op(GroupOpen)] + (raw + [Op(GroupClose)]), [Op(GroupOpen)] + (out + [Op(GroupClose)]), rest)
  {
    hide PrepareFrom, Settles;
    var open, close := [Op(GroupOpen)], [Op(GroupClose)];
    SettlesEnds(open[0], raw, out, close + rest);
    SettlesOne(out[|out| - 1], close[0], rest);
    SettlesConcat(open[0], raw, out, close, close, rest);
    SettlesOne(prev, open[0], raw + close + rest);
    SettlesConcat(prev, open, open, raw + close, out + close, rest);
  }

  lemma {:induction false} AndSettles(qs: seq<Query>, places: seq<Place>, prev: Token, rest: seq<Token>)
    requires qs != [] && Calm(prev) && WritableAll(qs, places) && forall i :: 0 <= i < |qs| ==> WfQuery(qs[i])
    ensures Settles(prev, RawAnd(qs, places), PrintAnd(qs, places), rest)
    decreases qs, 0
  {
    hide PrepareFrom, Settles, Raw, PrintExpr, Calm;
    var a, x := Raw(qs[0], First(places).style), PrintExpr(qs[0], First(places).style);
    if |qs| == 1 {
      ExprSettles(qs[0], First(places).style, prev, rest);
      assert RawAnd(qs, places) == a + ([] + []) == a && PrintAnd(qs, places) == x + ([] + []) == x;
    } else {
      var raw, out := RawAnd(qs[1..], Others(places)), PrintAnd(qs[1..], Others(places));
      var j := Juncture(qs[1..], Others(places));
      ExprSettles(qs[0], First(places).style, prev, j + raw + rest);
      SettlesEnds(prev, a, x, j + raw + rest);
      var last := x[|x| - 1];
      if First(Others(places)).written {
        var t := Op(OpIntersection);
        IntersectionIsCalm();
        SettlesOne(last, t, raw + rest);
        AndSettles(qs[1..], Others(places), t, rest);
        SettlesConcat(last, [t], [t], raw, out, rest);
      } else {
        AndSettles(qs[1..], Others(places), last, rest);
        assert j + raw == raw && j + out == out;
      }
      SettlesConcat(prev, a, x, j + raw, j + out, rest);
    }
  }

  lemma IntersectionIsCalm()
    ensures Calm(Op(OpIntersection)) && Calm(Op(OpUnion))
  {
  }

  lemma {:induction false} OrSettles(qs: seq<Query>, places: seq<Place>, prev: Token, rest: seq<Token>)
    requires qs != [] && Calm(prev) && WritableAll(qs, places) && forall i :: 0 <= i < |qs| ==> WfQuery(qs[i])
    ensures Settles(prev, RawOr(qs, places), PrintOr(qs, places), rest)
    decreases qs, 0
  {
    hide PrepareFrom, Settles, Raw, PrintExpr, Calm;
    var a, x := Raw(qs[0], First(places).style), PrintExpr(qs[0], First(places).style);
    if |qs| == 1 {
      ExprSettles(qs[0], First(places).style, prev, rest);
      assert RawOr(qs, places) == a + [] == a && PrintOr(qs, places) == x + [] == x;
    } else {
      var t, raw, out := Op(OpUnion), RawOr(qs[1..], Others(places)), PrintOr(qs[1..], Others(places));
      ExprSettles(qs[0], First(places).style, prev, [t] + raw + rest);
      SettlesEnds(prev, a, x, [t] + raw + rest);
      IntersectionIsCalm();
      SettlesOne(x[|x| - 1], t, raw + rest);
      OrSettles(qs[1..], Others(places), t, rest);
      SettlesConcat(x[|x| - 1], [t], [t], raw, out, rest);
      SettlesConcat(prev, a, x, [t] + raw, [t] + out, rest);
    }
  }

  // ---------------------------------------------------------------- the whole pipeline

  function RawQuery(q: Query, how: Style): seq<Token> {
    match q
    case And(qs) => RawAnd(qs, how.operands)
    case Or(qs) => RawOr(qs, how.operands)
    case _ => Raw(q, how)
  }

  lemma QuerySettles(q: Query, how: Style, prev: Token)
    requires Writable(q, how) && WfQuery(q) && Calm(prev)
    ensures Settles(prev, RawQuery(q, how), Print(q, how), [])
  {
    hide Settles, Raw, RawAnd, RawOr, PrintExpr, PrintAnd, PrintOr, Calm;
    match q
    case And(qs) => AndSettles(qs, how.operands, prev, []);
    case Or(qs) => OrSettles(qs, how.operands, prev, []);
    case _ => ExprSettles(q, how, prev, []);
  }

  /** Behind an imaginary first token the pass does what it does by itself. */
  lemma PreparedIs(raw: seq<Token>, out: seq<Token>)
    requires raw != [] && Settles(Op(GroupOpen), raw, out, [])
    requires !Ordering(raw[0].ty)
    ensures Prepared(raw) == out
  {
    hide Adjust, Calm;
    var d := Op(GroupOpen);
    assert raw + [] == raw && raw == [raw[0]] + raw[1..];
    OpenIsCalm();
    CalmStep(d, raw[0], raw[1..]);
    assert PrepareFrom(d, raw)[1..] == PrepareFrom(raw[0], raw[1..]);
    assert ([d] + out[..|out| - 1] + [out[|out| - 1]])[1..] == out;
  }

  lemma OpenIsCalm()
    ensures Calm(Op(GroupOpen))
  {
  }

  lemma LeafStart(q: Query, how: Style)
    requires Writable(q, how) && !q.And? && !q.Or?
    ensures Raw(q, how) != [] && !Ordering(Raw(q, how)[0].ty)
  {
    hide SpellType, StringWritable, NameWritable, NameToken, RefText, Separated, Fuzzy;
    if q.Not? {
      assert Raw(q, how)[0] == Op(OpComplement);
    }
  }

  lemma {:induction false} RawStart(q: Query, how: Style)
    requires WfQuery(q) && Writable(q, how)
    ensures Raw(q, how) != [] && !Ordering(Raw(q, how)[0].ty)
    ensures RawQuery(q, how) != [] && !Ordering(RawQuery(q, how)[0].ty)
    decreases q
  {
    hide Juncture;
    match q
    case And(qs) => RawStart(qs[0], First(how.operands).style);
    case Or(qs) => RawStart(qs[0], First(how.operands).style);
    case _ =>
      hide Raw;
      LeafStart(q, how);
  }

  lemma QueryTokens(q: Query, how: Style)
    requires Writable(q, how) && WfQuery(q)
    ensures Tokenize(WriteQuery(q, how)) == RawQuery(q, how)
  {
    hide Tokenize, Write, WriteAnd, WriteOr, Raw, RawAnd, RawOr;
    NoTokens();
    match q
    case And(qs) =>
      AndTokens(qs, how.operands, []);
      assert RawAnd(qs, how.operands) + [] == RawAnd(qs, how.operands);
    case Or(qs) =>
      OrTokens(qs, how.operands, []);
      assert RawOr(qs, how.operands) + [] == RawOr(qs, how.operands);
    case _ =>
      TokensOf(q, how, []);
      assert Raw(q, how) + [] == Raw(q, how);
  }

  /**
   Text round trip: every query tree comes back from the tokenizer, the context pass and the parser
   as exactly that tree, written in any of the ways that Writable tells: ANDs spelled out or left
   out at any places, names by letter or with any characters escaped, strings quoted or as words,
   operands before or after what the context pass does to them.
   */
  lemma TextRoundTrip(q: Query, how: Style)
    requires WfQuery(q) && Writable(q, how)
    ensures Parse(WriteQuery(q, how)) == Some(ToColl(q))
  {
    hide Tokenize, WriteQuery, RawQuery, Prepared, Build, Print, Settles, ToColl, Calm;
    QueryTokens(q, how);
    OpenIsCalm();
    QuerySettles(q, how, Op(GroupOpen));
    RawStart(q, how);
    PreparedIs(RawQuery(q, how), Print(q, how));
    ParserInvertsPrinter(q, how);
  }

  /** For one, a letter for the name and a quoted string. */
  lemma ArtistFilter(s: Text)
    requires Utf8.Valid(s)
    ensures Parse(T("a:") + Quote(s)) == Some(FilterColl(EQUALS, ARTIST, s))
  {
    hide Parse, Quote, Utf8.Valid, OperatorAt;
    var q, how, a := Equals(ARTIST, s), PLAIN.(short := Some('a' as int)), ['a' as int];
    Utf8.AsciiIsValid(ARTIST);
    LetterA();
    assert NameToken(ARTIST, how) == Token(PropShort, a);
    TextRoundTrip(q, how);
    assert a + (IS + (Quote(s) + [])) == T("a:") + Quote(s);
  }

  lemma LetterA()
    ensures var a: Text := ['a' as int];
            Spell(a, [true]) == a && Spellable(a, [true]) && StartsWord(a + [COLON])
  {
    var a: Text := ['a' as int];
    assert Spell(a, [true]) == a + Spell([], []) == a;
  }

  // ---------------------------------------------------------------- what has a text

  /**
   The queries that some choice can write.  A name other than that of a comparison is not empty, a
   name of HAS is no shorthand for another, a pattern is wrapped or has a wildcard, and a comparison's
   value is a row of digits or what the context pass makes of one behind <= or >=.
   */
  ghost predicate Speakable(q: Query)
    decreases q
  {
    match q
    case Not(p) => Speakable(p)
    case And(qs) => forall i :: 0 <= i < |qs| ==> Speakable(qs[i])
    case Or(qs) => forall i :: 0 <= i < |qs| ==> Speakable(qs[i])
    case Has(p) => |p| == 1 ==> LongName(p[0]) == None
    case Equals(p, s) => p != []
    case Match(p, s) => p != [] && (Fuzzy(s) == s || HasWild(s))
    case Smaller(p, n) => IsNumber(n) || exists m :: WritableNumber(n, 1, Some(m))
    case Greater(p, n) => IsNumber(n) || exists m :: WritableNumber(n, -1, Some(m))
    case AnyLike(s) => Fuzzy(s) == s || HasWild(s)
    case Positions(t) => Jointed(t)
    case Ids(t) => Jointed(t)
    case _ => true
  }

  /** A name can always be written with all its characters escaped. */
  lemma EscapedName(p: Text, how: Style)
    requires p != [] && how.short == None && how.name == []
    ensures NameWritable(p, how)
  {
    hide Spell, Spellable, StartsWord;
    EscapedIsSpelled(p, [COLON]);
  }

  /** A pattern can always be written with only its wildcards bare. */
  lemma PatternWord(s: Text)
    requires HasWild(s)
    ensures WritableAs(s, Some(WildBare(s)), {Pattern})
  {
    hide Spell, Spellable, StartsWord, SpellType, WildBare;
    PatternIsSpelled(s, Integer);
    PatternStarts(s);
  }

  /** A choice that writes the query. */
  lemma {:induction false} StyleFor(q: Query) returns (how: Style)
    requires Speakable(q)
    ensures Writable(q, how)
    decreases q, 1
  {
    hide Fuzzy, HasWild, LongName, WritableNumber, IsNumber, NameWritable, Spell, Spellable, StartsWord, SpellType, Jointed;
    match q
    case Not(p) => how := StyleFor(p);
    case And(qs) =>
      var places := PlacesFor(qs);
      how := PLAIN.(operands := places);
    case Or(qs) =>
      var places := PlacesFor(qs);
      how := PLAIN.(operands := places);
    case Has(p) => how := PLAIN.(short := if |p| == 1 then Some(p[0]) else None);
    case Equals(p, s) =>
      how := PLAIN;
      EscapedName(p, how);
    case Match(p, s) =>
      if Fuzzy(s) == s {
        how := PLAIN;
      } else {
        how := PLAIN.(pattern := true, word := Some(WildBare(s)));
        PatternWord(s);
      }
      EscapedName(p, how);
    case Smaller(p, n) =>
      how := NumberStyle(n, 1);
      if p != [] { EscapedName(p, how); }
    case Greater(p, n) =>
      how := NumberStyle(n, -1);
      if p != [] { EscapedName(p, how); }
    case AnyLike(s) =>
      if Fuzzy(s) == s {
        how := PLAIN.(sign := true);
      } else {
        how := PLAIN.(word := Some(WildBare(s)));
        StarStays();
        PatternWord(s);
      }
    case _ => how := PLAIN;
  }

  lemma StarStays()
    ensures Fuzzy(STAR) == STAR
  {
  }

  lemma NumberStyle(n: Text, delta: int) returns (how: Style)
    requires -1 <= delta <= 1 && (IsNumber(n) || exists m :: WritableNumber(n, delta, Some(m)))
    ensures WritableNumber(n, delta, how.given) && how.short == None && how.name == []
  {
    if IsNumber(n) {
      how := PLAIN;
    } else {
      var m :| WritableNumber(n, delta, Some(m));
      how := PLAIN.(given := Some(m));
    }
  }

  lemma {:induction false} PlacesFor(qs: seq<Query>) returns (places: seq<Place>)
    requires forall i :: 0 <= i < |qs| ==> Speakable(qs[i])
    ensures WritableAll(qs, places)
    decreases qs, 0
  {
    hide Writable, Speakable;
    places := [];
    if qs != [] {
      var first := StyleFor(qs[0]);
      var others := PlacesFor(qs[1..]);
      places := [Place(false, first)] + others;
      assert places[1..] == others;
    }
  }

  /** The name of HAS is no shorthand for another. */
  lemma HasSpeaks(p: Text, how: Style)
    requires Writable(Has(p), how) && |p| == 1
    ensures LongName(p[0]) == None
  {
    hide LongName, WritableAs;
    if how.short.Some? { LongNames(how.short.value); }
  }

  /** What the context pass has wrapped it would leave alone. */
  lemma WrappedStays(t: Text)
    ensures Fuzzy(Fuzzy(t)) == Fuzzy(t)
  {
    var f := Fuzzy(t);
    assert f[0] == ASTERISK && f[|f| - 1] == ASTERISK;
    assert [] + f + [] == f;
  }

  lemma MatchSpeaks(s: Text, how: Style)
    requires MatchWritable(s, how) || WritableAs(s, how.word, {Pattern})
    ensures Fuzzy(s) == s || HasWild(s)
  {
    hide Fuzzy, StringWritable, SpellType;
    if MatchWritable(s, how) && Tilde(how) {
      WrappedStays(Given(s, how));
    } else {
      PatternHasWild(s, how.word.value, Integer);
    }
  }

  lemma {:induction false} WritableIsSpeakable(q: Query, how: Style)
    requires Writable(q, how)
    ensures Speakable(q)
    decreases q, 1
  {
    hide Fuzzy, HasWild, LongName, WritableAll, NameWritable, WritableAs;
    match q
    case Not(p) => WritableIsSpeakable(p, how);
    case And(qs) => AllSpeakable(qs, how.operands);
    case Or(qs) => AllSpeakable(qs, how.operands);
    case Has(p) => if |p| == 1 { HasSpeaks(p, how); }
    case Match(p, s) => MatchSpeaks(s, how);
    case AnyLike(s) => MatchSpeaks(s, how);
    case Smaller(p, n) => if how.given.Some? { assert WritableNumber(n, 1, Some(how.given.value)); }
    case Greater(p, n) => if how.given.Some? { assert WritableNumber(n, -1, Some(how.given.value)); }
    case _ =>
  }

  lemma {:induction false} AllSpeakable(qs: seq<Query>, places: seq<Place>)
    requires WritableAll(qs, places)
    ensures forall i :: 0 <= i < |qs| ==> Speakable(qs[i])
    decreases qs, 0
  {
    hide Writable, Speakable;
    if qs != [] {
      WritableIsSpeakable(qs[0], First(places).style);
      AllSpeakable(qs[1..], Others(places));
      assert forall i :: 0 < i < |qs| ==> qs[i] == qs[1..][i - 1];
    }
  }

  /** Exactly the speakable queries can be written, and each has a text that means it. */
  lemma EverySpeakable(q: Query)
    requires WfQuery(q)
    ensures Speakable(q) <==> exists how :: Writable(q, how)
    ensures Speakable(q) ==> exists text :: Parse(text) == Some(ToColl(q))
  {
    hide Speakable, Writable, WfQuery, Parse, ToColl, WriteQuery;
    if Speakable(q) {
      var how := StyleFor(q);
      TextRoundTrip(q, how);
    }
    if how :| Writable(q, how) {
      WritableIsSpeakable(q, how);
    }
  }
}
