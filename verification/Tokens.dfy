/**
 The tokens of the collection query language, and the names it uses.
 */
module Tokens {
  import opened Bytes
  import Utf8

  datatype TokenType =
    | Invalid | GroupOpen | GroupClose | Reference | SymbolId
    | String | Pattern | Integer | Sequence | PropLong | PropShort
    | OpUnion | OpIntersection | OpComplement
    | FilHas | FilEquals | FilMatch | FilSmaller | FilGreater | FilSmallerEq | FilGreaterEq

  /** A token; the operators have no text. */
  datatype Token = Token(ty: TokenType, text: Text)

  function Op(ty: TokenType): Token { Token(ty, []) }

  /** An ASCII literal as a C string. */
  function T(s: string): (t: Text)
    requires forall i :: 0 <= i < |s| ==> 0 < s[i] as int < 0x80
    ensures |t| == |s| && forall i :: 0 <= i < |s| ==> t[i] == s[i] as int
    ensures Utf8.Ascii(t)
  {
    seq(|s|, i requires 0 <= i < |s| => s[i] as int)
  }

  const FIELD: Text := T("field")
  const VALUE: Text := T("value")
  const NAMESPACE: Text := T("namespace")
  const REFERENCE_KEY: Text := T("reference")
  const ALL_MEDIA: Text := T("All Media")
  const DEFAULT_NAMESPACE: Text := T("Collections")

  const ARTIST: Text := T("artist")
  const ALBUM: Text := T("album")
  const TITLE: Text := T("title")
  const POSITION: Text := T("position")
  const ID: Text := T("id")

  /** What a number sequence is written with. */
  predicate Digit(c: byte) { '0' as int <= c <= '9' as int }

  predicate Separator(c: byte) { c == ',' as int || c == '-' as int }

  predicate Joint(c: byte) { Digit(c) || Separator(c) }

  predicate Jointed(t: Text) { t != [] && forall i :: 0 <= i < |t| ==> Joint(t[i]) }

  predicate Separated(t: Text) { exists i :: 0 <= i < |t| && Separator(t[i]) }

  /** The one-letter property names. */
  function LongName(c: byte): Option<Text> {
    if c == 'a' as int then Some(ARTIST)
    else if c == 'l' as int then Some(ALBUM)
    else if c == 't' as int then Some(TITLE)
    else if c == 'n' as int then Some(T("tracknr"))
    else if c == 'y' as int then Some(T("year"))
    else if c == 'g' as int then Some(T("genre"))
    else if c == 'u' as int then Some(T("url"))
    else None
  }
}
