/**
 What particular texts mean, down to the numbers and names that the server sees: the trees are
 written out here, without the functions that build them.
 */
module Phrases {
  import opened Bytes
  import opened Values
  import opened Tokens
  import opened CollParser
  import opened Prepare
  import opened Printer
  import opened QueryText
  import opened Spelling
  import opened Tokenizer
  import Dicts
  import Sequences
  import Utf8

  /** The reference to everything. */
  function Everything(): Coll { Coll(0, [Dicts.Pair(T("reference"), T("All Media"))], [], []) }

  /** A filter of the given type on a property. */
  function On(kind: uint32, prop: Text, value: Text): Coll {
    Coll(kind, [Dicts.Pair(FIELD_NAME, prop), Dicts.Pair(VALUE_NAME, value)], [], [Everything()])
  }

  /** One text and another behind it. */
  function Then(a: Text, b: Text): (r: Text)
    ensures r == a + b
  {
    a + b
  }

  type Small = c: char | 'a' <= c <= 'z' witness 'a'

  function Char(c: Small): Text { [c as int] }

  const STAR_TEXT: Text := T("*")
  const NOT_TEXT: Text := T("NOT ")
  const SPACE_TEXT: Text := T(" ")
  const AND_TEXT: Text := T(" AND ")
  const OR_TEXT: Text := T(" OR ")
  const IN_TEXT: Text := T("in:")
  const IS_TEXT: Text := T(":")
  const LIKE_TEXT: Text := T("~")
  const BELOW_TEXT: Text := T("<")
  const ABOVE_TEXT: Text := T(">")
  const HAS_TEXT: Text := T("+")
  const NUMBER_TEXT: Text := T("#")
  const FIELD_NAME: Text := T("field")
  const VALUE_NAME: Text := T("value")
  const ARTIST_NAME: Text := T("artist")
  const ALBUM_NAME: Text := T("album")
  const TITLE_NAME: Text := T("title")
  const POSITION_NAME: Text := T("position")
  const ID_NAME: Text := T("id")

  /** The letters, and what they are short for. */
  predicate Short(c: Small, name: Text) {
    || (c == 'a' && name == T("artist"))
    || (c == 'l' && name == T("album"))
    || (c == 't' && name == T("title"))
    || (c == 'n' && name == T("tracknr"))
    || (c == 'y' && name == T("year"))
    || (c == 'g' && name == T("genre"))
    || (c == 'u' && name == T("url"))
  }

  predicate Lower(c: byte) { 'a' as int <= c <= 'z' as int }

  /** A property is named by its letter; any other small letter is a name of its own. */
  ghost predicate Names(c: Small, name: Text) {
    Short(c, name) || (name == [c as int] && forall n :: !Short(c, n))
  }

  lemma NamesStand(c: Small, name: Text)
    requires Names(c, name)
    ensures Shorthand(c as int, name) && Utf8.Ascii(name) && name != []
    ensures |name| == 1 ==> LongName(c as int) == None
  {
    if !Short(c, name) {
      Unnamed(c);
    }
  }

  lemma Unnamed(c: Small)
    requires forall n :: !Short(c, n)
    ensures LongName(c as int) == None
  {
    if LongName(c as int).Some? { assert Short(c, LongName(c as int).value); }
  }

  /** The style of a query whose property is named by a letter. */
  function Letter(c: Small): Style { PLAIN.(short := Some(c as int)) }

  lemma LetterName(c: Small, name: Text, how: Style)
    requires Names(c, name) && how.short == Some(c as int)
    ensures NameToken(name, how) == Token(PropShort, [c as int]) && NameWritable(name, how)
    ensures WriteName(name, how) == [c as int] && Utf8.Valid(name)
  {
    hide LongName, Utf8.Ascii;
    NamesStand(c, name);
    Utf8.AsciiIsValid(name);
    OneLetter(c as int);
  }

  lemma OneLetter(c: byte)
    requires Lower(c)
    ensures var a: Text := [c]; Spell(a, [true]) == a && Spellable(a, [true]) && StartsWord(a + [COLON])
  {
    var a: Text := [c];
    assert Spell(a, [true]) == a + Spell([], []) == a;
  }

  // ---------------------------------------------------------------- filters on a property

  /** x:"value" */
  lemma IsText(c: Small, name: Text, s: Text)
    requires Names(c, name) && Utf8.Valid(s)
    ensures Parse(Then(Char(c), Then(IS_TEXT, Quote(s)))) == Some(On(5, name, s))
  {
    hide Parse, Quote, Utf8.Valid, NameToken, NameWritable, WriteName, Names;
    var q, how := Equals(name, s), Letter(c);
    LetterName(c, name, how);
    TextRoundTrip(q, how);
    assert Quote(s) + [] == Quote(s);
  }

  /** A star at each end where there is none. */
  function Starred(s: Text): Text {
    Then(Then(if s != [] && s[0] == '*' as int then [] else STAR_TEXT, s),
         if s == [] || s[|s| - 1] == '*' as int then [] else STAR_TEXT)
  }

  lemma StarredIs(s: Text)
    ensures Fuzzy(s) == Starred(s)
  {
    FuzzyWraps(s);
    assert STAR_TEXT == ['*' as int] && [] + s == s && s + [] == s && ['*' as int] + [] == ['*' as int];
  }

  lemma StarredIsValid(s: Text)
    requires Utf8.Valid(s)
    ensures Utf8.Valid(Starred(s))
  {
    hide Utf8.Valid;
    Utf8.AsciiIsValid(STAR_TEXT);
    NoneIsValid();
    var front: Text := if s != [] && s[0] == '*' as int then [] else STAR_TEXT;
    var back: Text := if s == [] || s[|s| - 1] == '*' as int then [] else STAR_TEXT;
    Utf8.ValidConcat(front, s);
    Utf8.ValidConcat(front + s, back);
  }

  lemma NoneIsValid()
    ensures Utf8.Valid([])
  {
  }

  /**
   x~value: the value is matched anywhere, so a star is put at each end where there is none.  It may be
   quoted, or a word, with wildcards or not.
   */
  lemma LikeText(c: Small, name: Text, s: Text, word: Option<seq<bool>>)
    requires Names(c, name) && Utf8.Valid(s) && WritableAs(s, word, {String, Integer, Pattern})
    ensures Parse(Then(Char(c), Then(LIKE_TEXT, WriteString(s, word)))) == Some(On(6, name, Starred(s)))
  {
    hide Parse, Utf8.Valid, NameToken, NameWritable, WriteName, WriteString, StringWritable, Fuzzy, SpellType, Starred, Names;
    StarredIs(s);
    StarredIsValid(s);
    var how := Letter(c).(given := Some(s), word := word, pattern := Operand(s, word).ty == Pattern);
    LetterName(c, name, how);
    TextRoundTrip(Match(name, Fuzzy(s)), how);
    assert WriteString(s, word) + [] == WriteString(s, word);
  }

  predicate LowerWord(w: Text) { w != [] && forall i :: 0 <= i < |w| ==> Lower(w[i]) }

  lemma LowerIsBare(w: Text)
    requires LowerWord(w)
    ensures WriteString(w, Some(AllBare(w))) == w && Utf8.Valid(w)
    ensures WritableAs(w, Some(AllBare(w)), {String}) && WritableAs(w, Some(AllBare(w)), {String, Integer, Pattern})
  {
    hide SpellType, Spell, Spellable, StartsWord;
    Utf8.AsciiIsValid(w);
    BareIsItself(w);
    SpellTypeIs(w, AllBare(w));
    assert !Joint(w[0]);
    LowerStarts(w);
    NoBareWild(w, AllBare(w));
  }

  lemma LowerStarts(w: Text)
    requires LowerWord(w)
    ensures StartsWord(w)
  {
    assert Lower(w[0]);
    assert "<="[0] == '<' && ">="[0] == '>' && "OR"[0] == 'O' && "AND"[0] == 'A' && "NOT"[0] == 'N';
    assert "in:"[2] == ':' && (|w| > 2 ==> Lower(w[2]));
  }

  lemma {:induction false} NoBareWild(w: Text, bare: seq<bool>)
    requires forall i :: 0 <= i < |w| ==> Lower(w[i])
    ensures !BareWild(w, bare)
  {
    if w != [] { NoBareWild(w[1..], Later(bare)); }
  }

  /** x~word, for a word of small letters. */
  lemma LikeWord(c: Small, name: Text, w: Text)
    requires Names(c, name) && LowerWord(w)
    ensures Parse(Then(Char(c), Then(LIKE_TEXT, w))) == Some(On(6, name, Then(Then(STAR_TEXT, w), STAR_TEXT)))
  {
    hide WriteString, WritableAs, Utf8.Valid;
    LowerIsBare(w);
    assert Lower(w[0]) && Lower(w[|w| - 1]);
    LikeText(c, name, w, Some(AllBare(w)));
    assert Starred(w) == Then(Then(STAR_TEXT, w), STAR_TEXT);
  }

  /** x<n and x>n */
  lemma Compared(c: Small, name: Text, n: Text)
    requires Names(c, name) && n != [] && forall i :: 0 <= i < |n| ==> Digit(n[i])
    ensures Parse(Then(Char(c), Then(BELOW_TEXT, n))) == Some(On(7, name, n))
    ensures Parse(Then(Char(c), Then(ABOVE_TEXT, n))) == Some(On(8, name, n))
  {
    hide Parse, Utf8.Valid, NameToken, NameWritable, WriteName, Names;
    var how := Letter(c);
    Utf8.AsciiIsValid(n);
    LetterName(c, name, how);
    TextRoundTrip(Smaller(name, n), how);
    TextRoundTrip(Greater(name, n), how);
    assert n + [] == n;
  }

  /** +x */
  lemma HasLetter(c: Small, name: Text)
    requires Names(c, name)
    ensures Parse(Then(HAS_TEXT, Char(c))) == Some(Coll(4, [Dicts.Pair(FIELD_NAME, name)], [], [Everything()]))
  {
    hide Parse, Utf8.Valid, NameWritable, WriteName, LongName, WriteString, StringWritable, SpellType, Names;
    var w := Char(c);
    var how := Letter(c).(word := Some(AllBare(w)));
    LetterName(c, name, how);
    LowerIsBare(w);
    TextRoundTrip(Has(name), how);
    assert w + [] == w;
  }

  // ---------------------------------------------------------------- lone strings and references

  /** A string by itself is looked for in artist, album and title. */
  lemma AloneText(s: Text, word: Option<seq<bool>>)
    requires Utf8.Valid(s) && WritableAs(s, word, {String})
    ensures Parse(WriteString(s, word))
         == Some(Coll(1, [], [], [On(5, ARTIST_NAME, s), On(5, ALBUM_NAME, s), On(5, TITLE_NAME, s)]))
  {
    hide Parse, Utf8.Valid, WriteString, StringWritable;
    TextRoundTrip(Any(s), PLAIN.(word := word));
    assert WriteString(s, word) + [] == WriteString(s, word);
  }

  /** A pattern by itself is matched with them; a star is everything. */
  lemma AlonePattern(s: Text, word: Option<seq<bool>>)
    requires Utf8.Valid(s) && WritableAs(s, word, {Pattern}) && s != STAR_TEXT
    ensures Parse(WriteString(s, word))
         == Some(Coll(1, [], [], [On(6, ARTIST_NAME, s), On(6, ALBUM_NAME, s), On(6, TITLE_NAME, s)]))
  {
    hide Parse, Utf8.Valid, WriteString, StringWritable;
    TextRoundTrip(AnyLike(s), PLAIN.(word := word));
    assert WriteString(s, word) + [] == WriteString(s, word);
  }

  lemma StarText()
    ensures Parse(STAR_TEXT) == Some(Everything())
  {
    hide Parse;
    TextRoundTrip(All, PLAIN);
    assert STAR + [] == STAR;
  }

  const NAMESPACE_NAME: Text := T("namespace")
  const REFERENCE_NAME: Text := T("reference")
  const COLLECTIONS: Text := T("Collections")

  /** A name without a slash is a collection in the default namespace. */
  lemma InDefault(name: Text, word: Option<seq<bool>>)
    requires Utf8.Valid(name) && '/' as int !in name && WritableAs(name, word, {String})
    ensures Parse(Then(IN_TEXT, WriteString(name, word)))
         == Some(Coll(0, [Dicts.Pair(NAMESPACE_NAME, COLLECTIONS), Dicts.Pair(REFERENCE_NAME, name)], [], []))
  {
    hide Parse, Utf8.Valid, WriteString, StringWritable;
    DefaultWf(name);
    TextRoundTrip(Ref(DEFAULT_NAMESPACE, name), PLAIN.(word := word, given := Some(name)));
    assert WriteString(name, word) + [] == WriteString(name, word);
  }

  lemma DefaultWf(name: Text)
    requires Utf8.Valid(name)
    ensures WfQuery(Ref(DEFAULT_NAMESPACE, name))
  {
    hide Utf8.Valid;
    DefaultIsValid();
    assert "Collections"[0] != '/' && forall i :: 0 <= i < 11 ==> "Collections"[i] != '/';
  }

  // ---------------------------------------------------------------- numbers

  /**
   A number sequence by itself is one of positions, behind '#' one of ids; where it fits, it finds
   exactly the numbers that are written.
   */
  lemma NumbersFound(t: Text, x: int)
    requires Jointed(t) && Sequences.WfSequence(t) && Sequences.SequenceFits(Pieces(t))
    ensures var p, i := Parse(t), Parse(Then(NUMBER_TEXT, t));
      && p.Some? && (Sequences.Matches(p.value, POSITION_NAME, x) <==> Sequences.InSequence(t, x))
      && i.Some? && (Sequences.Matches(i.value, ID_NAME, x) <==> Sequences.InSequence(t, x))
  {
    hide Parse, Sequences.Matches, Sequences.InSequence, Sequences.WfSequence, Sequences.SequenceFits, SequenceColl;
    PositionsText(t);
    Utf8.AsciiIsValid(POSITION_NAME);
    Utf8.AsciiIsValid(ID_NAME);
    Sequences.SequenceDenotes(t, POSITION_NAME);
    Sequences.SequenceDenotes(t, ID_NAME);
  }

  lemma PositionsText(t: Text)
    requires Jointed(t)
    ensures Parse(t) == Some(SequenceColl(t, POSITION_NAME))
    ensures Parse(Then(NUMBER_TEXT, t)) == Some(SequenceColl(t, ID_NAME))
  {
    hide Parse, SequenceColl, Spell;
    BareIsItself(t);
    TextRoundTrip(Positions(t), PLAIN);
    TextRoundTrip(Ids(t), PLAIN);
    assert t + [] == t;
  }

  // ---------------------------------------------------------------- operations

  /** NOT is a collection of type 3. */
  lemma NotText(p: Query, how: Style)
    requires WfQuery(p) && Writable(p, how)
    ensures Parse(Then(NOT_TEXT, Write(p, how, []))) == Some(Coll(3, [], [], [ToColl(p)]))
  {
    hide Parse;
    TextRoundTrip(Not(p), how);
    assert NOT_OP + (BLANK + Write(p, how, [])) == Then(NOT_TEXT, Write(p, how, []));
  }

  /** Two operands, and whether there is an AND between them. */
  function Two(how: Style, also: Style, written: bool): seq<Place> { [Place(false, how), Place(written, also)] }

  lemma PairWritable(p: Query, q: Query, how: Style, also: Style, written: bool)
    requires WfQuery(p) && WfQuery(q) && Writable(p, how) && Writable(q, also)
    ensures var whole := PLAIN.(operands := Two(how, also, written));
            && WfQuery(And([p, q])) && Writable(And([p, q]), whole)
            && WfQuery(Or([p, q])) && Writable(Or([p, q]), whole)
  {
    var ps := Two(how, also, written);
    assert [p, q][1..] == [q] && [q][1..] == [] && Others(ps) == [ps[1]];
    assert WritableAll([q], Others(ps));
    assert WritableAll([p, q], ps);
  }

  lemma AndText(p: Query, q: Query, how: Style, also: Style, written: bool)
    ensures WriteAnd([p, q], Two(how, also, written), [])
         == Write(p, how, Then(if written then AND_TEXT else SPACE_TEXT, Write(q, also, [])))
  {
    hide Write;
    var ps, text := Two(how, also, written), Write(q, also, []);
    assert [p, q][1..] == [q] && Others(ps) == [ps[1]];
    assert WriteAnd([q], Others(ps), []) == text;
    assert BLANK + (AND_OP + (BLANK + text)) == Then(AND_TEXT, text);
    assert BLANK + text == Then(SPACE_TEXT, text);
  }

  lemma OrText(p: Query, q: Query, how: Style, also: Style)
    ensures WriteOr([p, q], Two(how, also, false), []) == Write(p, how, Then(OR_TEXT, Write(q, also, [])))
  {
    hide Write;
    var ps, text := Two(how, also, false), Write(q, also, []);
    assert [p, q][1..] == [q] && Others(ps) == [ps[1]];
    assert WriteOr([q], Others(ps), []) == text;
    assert BLANK + (OR_OP + (BLANK + text)) == Then(OR_TEXT, text);
  }

  /** A blank or an AND between two operands is a collection of type 2. */
  lemma BothText(p: Query, q: Query, how: Style, also: Style, written: bool)
    requires WfQuery(p) && WfQuery(q) && Writable(p, how) && Writable(q, also)
    ensures Parse(Write(p, how, Then(if written then AND_TEXT else SPACE_TEXT, Write(q, also, []))))
         == Some(Coll(2, [], [], [ToColl(p), ToColl(q)]))
  {
    hide Parse, Writable, WfQuery, Write, WriteAnd;
    PairWritable(p, q, how, also, written);
    AndText(p, q, how, also, written);
    TextRoundTrip(And([p, q]), PLAIN.(operands := Two(how, also, written)));
    TreeOfTwo(p, q);
  }

  /** An OR between them is one of type 1. */
  lemma EitherText(p: Query, q: Query, how: Style, also: Style)
    requires WfQuery(p) && WfQuery(q) && Writable(p, how) && Writable(q, also)
    ensures Parse(Write(p, how, Then(OR_TEXT, Write(q, also, [])))) == Some(Coll(1, [], [], [ToColl(p), ToColl(q)]))
  {
    hide Parse, Writable, WfQuery, Write, WriteOr;
    PairWritable(p, q, how, also, false);
    OrText(p, q, how, also);
    TextRoundTrip(Or([p, q]), PLAIN.(operands := Two(how, also, false)));
    TreeOfTwo(p, q);
  }

  lemma TreeOfTwo(p: Query, q: Query)
    ensures ToColls([p, q]) == [ToColl(p), ToColl(q)]
  {
    assert [p, q][1..] == [q] && [q][1..] == [];
  }
}
