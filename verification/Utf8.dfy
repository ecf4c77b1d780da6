/**
 The library's UTF-8 check: lead and continuation shape only.
 */
module Utf8 {
  import opened Bytes

  /** Length of the character led by `c`; 0 when `c` cannot lead one.  The C code tests bit masks. */
  function CharLen(c: byte): nat {
    if c / 0x80 == 0 then 1
    else if c / 0x20 % 4 == 2 then 2
    else if c / 0x10 % 8 == 6 then 3
    else if c / 0x8 % 16 == 14 then 4
    else 0
  }

  predicate Continuation(c: byte) { c / 0x40 == 2 }

  /** The string is a sequence of well-shaped characters. */
  predicate Valid(s: Text) {
    s == [] ||
    var l := CharLen(s[0]);
    && 0 < l <= |s|
    && (forall k :: 1 <= k < l ==> Continuation(s[k]))
    && Valid(s[l..])
  }

  predicate Ascii(s: seq<byte>) { forall k :: 0 <= k < |s| ==> 0 < s[k] < 0x80 }

  lemma {:induction false} AsciiIsValid(s: Text)
    requires Ascii(s)
    ensures Valid(s)
  {
    if s != [] {
      AsciiIsValid(s[1..]);
    }
  }

  lemma {:induction false} ValidConcat(s: Text, t: Text)
    requires Valid(s)
    ensures Valid(s + t) <==> Valid(t)
  {
    if s == [] {
      assert s + t == t;
    } else {
      var l := CharLen(s[0]);
      assert (s + t)[l..] == s[l..] + t;
      ValidConcat(s[l..], t);
    }
  }

  // ---------------------------------------------------------------- the shape, byte by byte

  /** A character of one to four bytes, as the bytes may be. */
  predicate Character(p: seq<byte>) {
    || (|p| == 1 && 0x01 <= p[0] <= 0x7f)
    || (|p| == 2 && 0xc0 <= p[0] <= 0xdf && 0x80 <= p[1] <= 0xbf)
    || (|p| == 3 && 0xe0 <= p[0] <= 0xef && 0x80 <= p[1] <= 0xbf && 0x80 <= p[2] <= 0xbf)
    || (|p| == 4 && 0xf0 <= p[0] <= 0xf7 && 0x80 <= p[1] <= 0xbf && 0x80 <= p[2] <= 0xbf && 0x80 <= p[3] <= 0xbf)
  }

  function Joined(ps: seq<seq<byte>>): seq<byte> { if ps == [] then [] else ps[0] + Joined(ps[1..]) }

  ghost predicate Spells(ps: seq<seq<byte>>, s: seq<byte>) {
    Joined(ps) == s && forall i :: 0 <= i < |ps| ==> Character(ps[i])
  }

  /** The lead byte tells a character's length. */
  lemma CharacterAtFront(s: Text, l: nat)
    requires s != [] && 0 < l <= |s|
    ensures Character(s[..l]) <==> l == CharLen(s[0]) && forall k :: 1 <= k < l ==> Continuation(s[k])
  {
    var p := s[..l];
    assert s[0] in s;
    assert forall k :: 0 <= k < l ==> p[k] == s[k];
    assert forall k :: 1 <= k < l ==> (Continuation(s[k]) <==> 0x80 <= p[k] <= 0xbf);
    assert l <= 4 || !Character(p);
  }

  /** A string is valid exactly when it is a row of such characters. */
  lemma {:induction false} ValidIsCharacters(s: Text)
    ensures Valid(s) <==> exists ps :: Spells(ps, s)
  {
    if s == [] {
      assert Spells([], s);
    } else {
      var l := CharLen(s[0]);
      if Valid(s) {
        ValidIsCharacters(s[l..]);
        var ps :| Spells(ps, s[l..]);
        CharacterAtFront(s, l);
        FrontJoins(s, l, ps);
      }
      if ps :| Spells(ps, s) {
        NoNulInside(ps, s);
        ValidIsCharacters(s[|ps[0]|..]);
        assert Spells(ps[1..], s[|ps[0]|..]);
        CharacterAtFront(s, |ps[0]|);
      }
    }
  }

  lemma FrontJoins(s: Text, l: nat, ps: seq<seq<byte>>)
    requires 0 < l <= |s| && Character(s[..l]) && Spells(ps, s[l..])
    ensures Spells([s[..l]] + ps, s)
  {
    var qs := [s[..l]] + ps;
    assert qs[1..] == ps && s == s[..l] + s[l..];
  }

  lemma NoNulInside(ps: seq<seq<byte>>, s: Text)
    requires s != [] && Spells(ps, s)
    ensures ps != [] && 0 < |ps[0]| <= |s| && s[..|ps[0]|] == ps[0] && s[|ps[0]|..] == Joined(ps[1..])
  {
    assert Character(ps[0]);
  }

  // ---------------------------------------------------------------- the scan

  /** One whole character at `i`: the rest decides. */
  lemma CharThenRest(str: Text, i: nat, l: nat)
    requires i < |str| && l == CharLen(str[i]) && 0 < l && i + l <= |str|
    requires forall k :: i < k < i + l ==> Continuation(str[k])
    ensures Valid(str[i..]) == Valid(str[i + l..])
  {
    var rest := str[i..];
    assert rest[l..] == str[i + l..];
    forall k | 1 <= k < l ensures Continuation(rest[k]) { assert rest[k] == str[i + k]; }
  }

  /** A character at `i` that has no continuation byte at `j`. */
  lemma BrokenChar(str: Text, i: nat, j: nat)
    requires i < |str| && i < j < i + CharLen(str[i]) && j <= |str|
    requires j == |str| || !Continuation(str[j])
    ensures !Valid(str[i..])
  {
    var rest := str[i..];
    if CharLen(str[i]) <= |rest| {
      assert rest[j - i] == str[j];
    }
  }

  /**
   The scan of the zero-terminated buffer: it reads on until it meets the terminator or a byte
   that breaks the shape, and never reads past the terminator.
   */
  method Validate(str: Text) returns (ok: bool)
    ensures ok == Valid(str)
  {
    hide Valid, CharLen;
    var buf := str + [0];
    var i := 0;
    assert str[0..] == str;
    while true
      invariant 0 <= i <= |str|
      invariant Valid(str) == Valid(str[i..])
      decreases |str| - i
    {
      ghost var start := i;
      var c := buf[i];
      i := i + 1;
      if c == 0 {
        ValidEmpty(str[start..]);
        return true;
      }
      var l := CharLen(c);
      if l == 0 {
        ValidLead(str[start..]);
        return false;
      }
      var togo := l;
      while togo > 1
        invariant 1 <= togo <= l && i == start + 1 + (l - togo)
        invariant i <= |str|
        invariant forall k :: start < k < i ==> Continuation(str[k])
      {
        var d := buf[i];
        i := i + 1;
        if !Continuation(d) {
          BrokenChar(str, start, i - 1);
          return false;
        }
        togo := togo - 1;
      }
      CharThenRest(str, start, l);
    }
  }

  lemma ValidEmpty(s: Text)
    ensures s == [] ==> Valid(s)
  {
  }

  lemma ValidLead(s: Text)
    requires s != []
    ensures Valid(s) ==> CharLen(s[0]) != 0
  {
  }
}
