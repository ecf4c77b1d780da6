/**
 How names, strings and numbers are spelled in query text, and that the tokenizer reads back
 exactly what was spelled: quoted strings, and bare words with any of their characters escaped.
 */
module Spelling {
  import opened Bytes
  import opened Values
  import opened Tokens
  import opened CollParser
  import opened Prepare
  import opened Tokenizer
  import Numbers

  predicate Special(c: byte) { c == QUOTE || c == BACKSLASH || Wild(c) }

  function EscapeSpecial(s: Text): Text {
    if s == [] then [] else (if Special(s[0]) then [BACKSLASH, s[0]] else [s[0]]) + EscapeSpecial(s[1..])
  }

  /** A string between double quotes. */
  function Quote(s: Text): Text { [QUOTE] + EscapeSpecial(s) + [QUOTE] }

  const COLON: byte := ':' as int

  /** Every operand ends before a space, a parenthesis or the end of the text. */
  predicate Boundary(rest: Text) { rest == [] || rest[0] == SPACE || Paren(rest[0]) }

  // ---------------------------------------------------------------- bare words

  /** Whether the next character is left bare; behind the end of the list all are escaped. */
  function Bare(bare: seq<bool>): bool { bare != [] && bare[0] }

  function Later(bare: seq<bool>): seq<bool> { if bare == [] then [] else bare[1..] }

  /** The word with a backslash before every character that is not left bare. */
  function Spell(s: Text, bare: seq<bool>): (r: Text)
    ensures |r| >= |s| && (r == [] <==> s == [])
  {
    if s == [] then [] else (if Bare(bare) then [s[0]] else [BACKSLASH, s[0]]) + Spell(s[1..], Later(bare))
  }

  /** What ends a word, or escapes, must not be bare. */
  predicate Ordinary(c: byte) { c != SPACE && c != BACKSLASH && !EndsProp(c) && !Paren(c) }

  predicate Spellable(s: Text, bare: seq<bool>) {
    s == [] || ((Bare(bare) ==> Ordinary(s[0])) && Spellable(s[1..], Later(bare)))
  }

  /** The type that the tokenizer has settled on behind the word. */
  function SpellType(ty: TokenType, s: Text, bare: seq<bool>): TokenType
    decreases s
  {
    if s == [] then ty else SpellType(WordType(ty, s[0], !Bare(bare)), s[1..], Later(bare))
  }

  /** The text starts with no blank, no quote and no operator, so a word is read. */
  predicate StartsWord(u: Text) {
    u != [] && u[0] != SPACE && u[0] != QUOTE && u[0] != APOSTROPHE && OperatorAt(u) == None
  }

  // ---------------------------------------------------------------- quoted strings

  /** A backslash and a character: the character, whatever it is. */
  lemma QuotedEscape(text: Text, c: byte, tail: Text)
    requires c != 0
    ensures Quoted(Scan(String, text, false, [BACKSLASH, c] + tail), QUOTE)
         == Quoted(Scan(String, text + [c], false, tail), QUOTE)
  {
    assert [BACKSLASH, c] + tail == [BACKSLASH] + ([c] + tail);
    assert ([BACKSLASH] + ([c] + tail))[1..] == [c] + tail;
    assert ([c] + tail)[1..] == tail;
    assert Quoted(Scan(String, text, true, [c] + tail), QUOTE) == Quoted(Scan(String, text + [c], false, tail), QUOTE);
  }

  lemma QuotedEnd(text: Text, rest: Text)
    ensures var s := Scan(String, text, false, [QUOTE] + rest); Quoted(s, QUOTE) == s
  {
  }

  lemma QuotedPlain(text: Text, c: byte, tail: Text)
    requires c != 0 && !Special(c)
    ensures Quoted(Scan(String, text, false, [c] + tail), QUOTE)
         == Quoted(Scan(String, text + [c], false, tail), QUOTE)
  {
    assert ([c] + tail)[1..] == tail;
  }

  lemma Regrouped(front: seq<byte>, later: seq<byte>, rest: seq<byte>)
    ensures (front + later) + rest == front + (later + rest)
  {
  }

  /** A quoted string is read back as exactly that string, whatever it contains. */
  lemma {:induction false} QuotedBack(text: Text, s: Text, rest: Text)
    ensures Quoted(Scan(String, text, false, EscapeSpecial(s) + [QUOTE] + rest), QUOTE)
         == Scan(String, text + s, false, [QUOTE] + rest)
    decreases s
  {
    hide Quoted, Special;
    if s == [] {
      assert EscapeSpecial(s) + [QUOTE] + rest == [QUOTE] + rest && text + s == text;
      QuotedEnd(text, rest);
    } else {
      var c, tail := s[0], EscapeSpecial(s[1..]) + [QUOTE] + rest;
      QuotedBack(text + [c], s[1..], rest);
      assert text + [c] + s[1..] == text + s;
      var front := if Special(c) then [BACKSLASH, c] else [c];
      Regrouped(front, EscapeSpecial(s[1..]), [QUOTE]);
      Regrouped(front, EscapeSpecial(s[1..]) + [QUOTE], rest);
      if Special(c) {
        QuotedEscape(text, c, tail);
      } else {
        QuotedPlain(text, c, tail);
      }
    }
  }

  lemma QuoteToken(s: Text, rest: Text)
    ensures NextToken(Quote(s) + rest) == Some((Token(String, s), rest))
  {
    hide Quoted, EscapeSpecial;
    var u := Quote(s) + rest;
    assert u[1..] == EscapeSpecial(s) + [QUOTE] + rest;
    QuotedBack([], s, rest);
    assert [] + s == s;
    assert ([QUOTE] + rest)[1..] == rest;
  }

  // ---------------------------------------------------------------- scanning words

  lemma WordEscape(ty: TokenType, text: Text, c: byte, tail: Text, n: nat)
    requires c != 0
    ensures Word(Scan(ty, text, false, [BACKSLASH, c] + tail), n)
         == Word(Scan(WordType(ty, c, true), text + [c], false, tail), n + 2)
  {
    hide WordType;
    assert [BACKSLASH, c] + tail == [BACKSLASH] + ([c] + tail);
    assert ([BACKSLASH] + ([c] + tail))[1..] == [c] + tail;
    assert ([c] + tail)[1..] == tail;
    assert Word(Scan(ty, text, true, [c] + tail), n + 1) == Word(Scan(WordType(ty, c, true), text + [c], false, tail), n + 2);
  }

  lemma WordBare(ty: TokenType, text: Text, c: byte, tail: Text, n: nat)
    requires c != 0 && Ordinary(c)
    ensures Word(Scan(ty, text, false, [c] + tail), n)
         == Word(Scan(WordType(ty, c, false), text + [c], false, tail), n + 1)
  {
    hide WordType;
    assert ([c] + tail)[1..] == tail;
  }

  lemma WordEnd(ty: TokenType, text: Text, rest: Text, n: nat)
    requires rest != [] && EndsProp(rest[0])
    ensures Word(Scan(ty, text, false, rest), n) == Scan(if n == 1 then PropShort else PropLong, text, false, rest)
  {
    hide WordType, Paren;
  }

  lemma WordStops(ty: TokenType, text: Text, rest: Text, n: nat)
    requires Boundary(rest)
    ensures Word(Scan(ty, text, false, rest), n) == Scan(ty, text, false, rest)
  {
  }

  lemma SpellStep(s: Text, bare: seq<bool>)
    requires s != []
    ensures var later := Spell(s[1..], Later(bare));
            Spell(s, bare) == (if Bare(bare) then [s[0]] else [BACKSLASH, s[0]]) + later
  {
    hide Bare, Later;
  }

  lemma SpellNone(bare: seq<bool>, rest: Text, text: Text)
    ensures Spell([], bare) + rest == rest && |Spell([], bare)| == 0 && text + [] == text
  {
  }

  /** However it is spelled, a word is read as its own characters. */
  lemma {:induction false} SpellBack(ty: TokenType, text: Text, s: Text, bare: seq<bool>, rest: Text, n: nat)
    requires Spellable(s, bare)
    ensures Word(Scan(ty, text, false, Spell(s, bare) + rest), n)
         == Word(Scan(SpellType(ty, s, bare), text + s, false, rest), n + |Spell(s, bare)|)
    decreases s
  {
    hide Word, WordType, Ordinary, Spell, Bare, Later;
    if s == [] {
      SpellNone(bare, rest, text);
    } else {
      var c, later := s[0], Later(bare);
      var tail := Spell(s[1..], later) + rest;
      SpellStep(s, bare);
      Regrouped(if Bare(bare) then [c] else [BACKSLASH, c], Spell(s[1..], later), rest);
      assert text + [c] + s[1..] == text + s;
      if Bare(bare) {
        WordBare(ty, text, c, tail, n);
        SpellBack(WordType(ty, c, false), text + [c], s[1..], later, rest, n + 1);
      } else {
        WordEscape(ty, text, c, tail, n);
        SpellBack(WordType(ty, c, true), text + [c], s[1..], later, rest, n + 2);
      }
    }
  }

  lemma WordToken(u: Text)
    requires StartsWord(u)
    ensures var w := Word(Scan(Integer, [], false, u), 0);
            !w.escape ==> NextToken(u) == Some((Token(w.ty, w.text), w.rest))
  {
    hide OperatorAt, Word, Quoted;
  }

  /** What follows a name cannot make an operator of it, if a colon does not. */
  lemma StartsName(u: Text, tail: Text)
    requires u != [] && StartsWord(u + [COLON]) && tail != [] && EndsProp(tail[0])
    ensures StartsWord(u + tail)
  {
    var a, b := u + [COLON], u + tail;
    assert forall k :: 0 <= k < |u| ==> a[k] == u[k] && b[k] == u[k];
    assert a[|u|] == COLON && b[|u|] == tail[0];
  }

  lemma StartsOperand(u: Text, rest: Text)
    requires StartsWord(u) && Boundary(rest)
    ensures StartsWord(u + rest)
  {
    var b := u + rest;
    assert forall k :: 0 <= k < |u| ==> b[k] == u[k];
    assert rest != [] ==> b[|u|] == rest[0];
  }

  /** A word that starts with a backslash, a wildcard, a digit, a comma or a dash is no operator. */
  lemma StartsPlain(u: Text)
    requires u != [] && (u[0] == BACKSLASH || Wild(u[0]) || Joint(u[0]))
    ensures StartsWord(u)
  {
  }

  // ---------------------------------------------------------------- words as tokens

  /** A name in front of an operator is one property token: a short one if it is a single bare letter. */
  lemma NameSpelled(p: Text, bare: seq<bool>, tail: Text)
    requires p != [] && Spellable(p, bare) && StartsWord(Spell(p, bare) + [COLON])
    requires tail != [] && EndsProp(tail[0])
    ensures NextToken(Spell(p, bare) + tail)
         == Some((Token(if |Spell(p, bare)| == 1 then PropShort else PropLong, p), tail))
  {
    hide Word, NextToken, StartsWord, EndsProp, Spellable, WordType;
    StartsName(Spell(p, bare), tail);
    SpellBack(Integer, [], p, bare, tail, 0);
    assert [] + p == p;
    WordEnd(SpellType(Integer, p, bare), p, tail, |Spell(p, bare)|);
    WordToken(Spell(p, bare) + tail);
  }

  /** A word as an operand is one token, of the type its characters give it. */
  lemma WordSpelled(s: Text, bare: seq<bool>, rest: Text)
    requires s != [] && Spellable(s, bare) && StartsWord(Spell(s, bare)) && Boundary(rest)
    ensures NextToken(Spell(s, bare) + rest) == Some((Token(SpellType(Integer, s, bare), s), rest))
  {
    hide Word, NextToken, StartsWord, Boundary, Spellable, WordType;
    StartsOperand(Spell(s, bare), rest);
    SpellBack(Integer, [], s, bare, rest, 0);
    assert [] + s == s;
    WordStops(SpellType(Integer, s, bare), s, rest, |Spell(s, bare)|);
    WordToken(Spell(s, bare) + rest);
  }

  lemma WordDigit(text: Text, c: byte, tail: Text, n: nat)
    requires Numbers.IsDigit(c)
    ensures Word(Scan(Integer, text, false, [c] + tail), n) == Word(Scan(Integer, text + [c], false, tail), n + 1)
  {
    assert ([c] + tail)[1..] == tail;
  }

  lemma {:induction false} DigitsBack(text: Text, d: Text, rest: Text, n: nat)
    requires Numbers.Digits(d) && Boundary(rest)
    ensures Word(Scan(Integer, text, false, d + rest), n) == Scan(Integer, text + d, false, rest)
    decreases d
  {
    hide Word, Boundary;
    if d == [] {
      assert d + rest == rest && text + d == text;
      WordStops(Integer, text, rest, n);
    } else {
      var tail := d[1..] + rest;
      assert d + rest == [d[0]] + tail && Numbers.IsDigit(d[0]);
      WordDigit(text, d[0], tail, n);
      DigitsBack(text + [d[0]], d[1..], rest, n + 1);
      assert text + [d[0]] + d[1..] == text + d;
    }
  }

  lemma NumberToken(d: Text, rest: Text)
    requires d != [] && Numbers.Digits(d) && Boundary(rest)
    ensures NextToken(d + rest) == Some((Token(Integer, d), rest))
  {
    hide Word, NextToken;
    assert Numbers.IsDigit((d + rest)[0]);
    DigitsBack([], d, rest, 0);
    assert [] + d == d;
    StartsPlain(d + rest);
    WordToken(d + rest);
  }

  lemma StarToken(rest: Text)
    requires Boundary(rest)
    ensures NextToken(STAR + rest) == Some((Token(Pattern, STAR), rest))
  {
    hide NextToken;
    var u := STAR + rest;
    assert u[0] == ASTERISK && u[1..] == rest;
    assert [] + [ASTERISK] == STAR;
    assert Word(Scan(Integer, [], false, u), 0) == Word(Scan(Pattern, [ASTERISK], false, rest), 1);
    StartsPlain(u);
    WordToken(u);
  }

  // ---------------------------------------------------------------- two ways that always work

  /** All characters escaped. */
  lemma {:induction false} EscapedIsSpelled(s: Text, tail: Text)
    ensures Spellable(s, []) && |Spell(s, [])| == 2 * |s|
    ensures s != [] ==> StartsWord(Spell(s, []) + tail)
  {
    if s != [] {
      EscapedIsSpelled(s[1..], tail);
      StartsPlain(Spell(s, []) + tail);
    }
  }

  predicate HasWild(s: Text) { exists i :: 0 <= i < |s| && Wild(s[i]) }

  /** Only the wildcards bare. */
  function WildBare(s: Text): seq<bool> { if s == [] then [] else [Wild(s[0])] + WildBare(s[1..]) }

  lemma WildIsPattern(c: byte, ty: TokenType)
    requires Wild(c)
    ensures WordType(ty, c, false) == Pattern && WordType(Pattern, c, true) == Pattern && Ordinary(c)
  {
  }

  lemma {:induction false} PatternIsSpelled(s: Text, ty: TokenType)
    ensures Spellable(s, WildBare(s))
    ensures ty == Pattern || HasWild(s) ==> SpellType(ty, s, WildBare(s)) == Pattern
    decreases s
  {
    hide WordType, Wild, Ordinary;
    if s != [] {
      var c, w := s[0], WildBare(s);
      assert w[0] == Wild(c) && w[1..] == WildBare(s[1..]);
      if Wild(c) { WildIsPattern(c, ty); }
      assert WordType(Pattern, c, !Wild(c)) == Pattern by { PatternStays(c, !Wild(c)); }
      PatternIsSpelled(s[1..], WordType(ty, c, !Wild(c)));
      if i :| 0 <= i < |s| && Wild(s[i]) {
        if i > 0 { assert s[1..][i - 1] == s[i]; }
      }
    }
  }

  /** Only a bare wildcard makes a pattern of a word. */
  lemma {:induction false} PatternHasWild(s: Text, bare: seq<bool>, ty: TokenType)
    requires SpellType(ty, s, bare) == Pattern && ty != Pattern
    ensures HasWild(s)
    decreases s
  {
    hide Wild;
    if s != [] && !Wild(s[0]) {
      PatternHasWild(s[1..], Later(bare), WordType(ty, s[0], !Bare(bare)));
      var i :| 0 <= i < |s| - 1 && Wild(s[1..][i]);
      assert Wild(s[i + 1]);
    }
  }

  lemma PatternStays(c: byte, escape: bool)
    ensures WordType(Pattern, c, escape) == Pattern
  {
  }

  lemma PatternStarts(s: Text)
    requires s != []
    ensures StartsWord(Spell(s, WildBare(s)))
  {
    StartsPlain(Spell(s, WildBare(s)));
  }

  // ---------------------------------------------------------------- the type of a word

  predicate BareWild(s: Text, bare: seq<bool>) {
    s != [] && ((Bare(bare) && (s[0] == '*' as int || s[0] == '?' as int)) || BareWild(s[1..], Later(bare)))
  }

  lemma WordTypeStep(ty: TokenType, c: byte, escape: bool)
    requires ty in {Integer, Sequence, String}
    ensures WordType(ty, c, escape) ==
      if !escape && (c == '*' as int || c == '?' as int) then Pattern
      else if ty == String || !Joint(c) then String
      else if ty == Sequence || Separator(c) then Sequence
      else Integer
  {
  }

  /**
   A word with a bare wildcard is a pattern; otherwise digits alone are an integer, digits, commas and
   dashes a sequence, and anything else a string.
   */
  lemma {:induction false} SpellTypeFrom(ty: TokenType, s: Text, bare: seq<bool>)
    requires ty in {Integer, Sequence, String}
    ensures SpellType(ty, s, bare) ==
      if BareWild(s, bare) then Pattern
      else if ty == String || exists i :: 0 <= i < |s| && !Joint(s[i]) then String
      else if ty == Sequence || Separated(s) then Sequence
      else Integer
    decreases s
  {
    hide WordType, Joint, Separator;
    if s != [] {
      var c, t := s[0], WordType(ty, s[0], !Bare(bare));
      WordTypeStep(ty, c, !Bare(bare));
      assert forall i {:trigger s[1..][i]} :: 0 <= i < |s| - 1 ==> s[1..][i] == s[i + 1];
      assert forall i {:trigger s[i]} :: 0 < i < |s| ==> s[i] == s[1..][i - 1];
      if t == Pattern {
        StaysPattern(s[1..], Later(bare));
      } else {
        SpellTypeFrom(t, s[1..], Later(bare));
      }
    }
  }

  lemma {:induction false} StaysPattern(s: Text, bare: seq<bool>)
    ensures SpellType(Pattern, s, bare) == Pattern
    decreases s
  {
    hide WordType;
    if s != [] {
      PatternStays(s[0], !Bare(bare));
      StaysPattern(s[1..], Later(bare));
    }
  }

  lemma SpellTypeIs(s: Text, bare: seq<bool>)
    ensures SpellType(Integer, s, bare) ==
      if BareWild(s, bare) then Pattern
      else if exists i :: 0 <= i < |s| && !Joint(s[i]) then String
      else if Separated(s) then Sequence
      else Integer
  {
    SpellTypeFrom(Integer, s, bare);
  }

  /** No character escaped. */
  function AllBare(s: seq<byte>): seq<bool> { seq(|s|, i => true) }

  lemma {:induction false} BareIsItself(s: Text)
    ensures Spell(s, AllBare(s)) == s
    ensures Spellable(s, AllBare(s)) <==> forall i :: 0 <= i < |s| ==> Ordinary(s[i])
  {
    hide Ordinary;
    if s != [] {
      assert AllBare(s)[1..] == AllBare(s[1..]);
      BareIsItself(s[1..]);
      assert s == [s[0]] + s[1..];
      assert forall i {:trigger s[i]} :: 0 < i < |s| ==> s[i] == s[1..][i - 1];
      assert forall i {:trigger s[1..][i]} :: 0 <= i < |s| - 1 ==> s[1..][i] == s[i + 1];
    }
  }

  lemma JointIsOrdinary(c: byte)
    requires Joint(c)
    ensures Ordinary(c) && c != '*' as int && c != '?' as int
  {
  }

  lemma {:induction false} JointSpelled(t: Text, bare: seq<bool>)
    requires forall i :: 0 <= i < |t| ==> Joint(t[i])
    ensures Spellable(t, bare) && !BareWild(t, bare)
    ensures t != [] ==> StartsWord(Spell(t, bare))
    decreases t
  {
    hide Joint, Ordinary, StartsWord;
    if t != [] {
      JointIsOrdinary(t[0]);
      JointSpelled(t[1..], Later(bare));
      StartsPlain(Spell(t, bare));
    }
  }

  /** However it is spelled, a row of digits, commas and dashes is one token. */
  lemma JointToken(t: Text, bare: seq<bool>, rest: Text)
    requires Jointed(t) && Boundary(rest)
    ensures NextToken(Spell(t, bare) + rest) == Some((Token(if Separated(t) then Sequence else Integer, t), rest))
  {
    hide NextToken, Spell, Spellable, StartsWord, SpellType, Boundary, Joint, BareWild;
    JointSpelled(t, bare);
    SpellTypeIs(t, bare);
    WordSpelled(t, bare, rest);
  }
}
