/**
 xmmsv_dict_format: a format with ${field} places, filled from a dict into a buffer of fixed size.
 */
module Formats {
  import opened Bytes
  import opened Numbers
  import opened Tokens
  import opened Values
  import Dicts

  type Fields = seq<Pair<Value>>

  const DURATION: Text := T("duration")
  const SECONDS: Text := T("seconds")
  const MINUTES: Text := T("minutes")
  const DOLLAR: byte := '$' as int
  const OPEN: byte := '{' as int
  const CLOSE: byte := '}' as int

  /** strstr (s, "${") */
  function FindOpen(s: Text): (r: Option<nat>)
    ensures r.Some? ==> r.value + 2 <= |s|
  {
    if |s| < 2 then None
    else if s[0] == DOLLAR && s[1] == OPEN then Some(0)
    else match FindOpen(s[1..])
      case Some(i) => Some(i + 1)
      case None => None
  }

  /** strcspn (s, "}") */
  function Span(s: Text): (k: nat)
    ensures k <= |s|
  {
    if s == [] || s[0] == CLOSE then 0 else 1 + Span(s[1..])
  }

  /** Division and remainder of C, which truncate. */
  function Quot(a: int, b: int): int
    requires b > 0
  {
    if a < 0 then 0 - (0 - a) / b else a / b
  }

  function Rem(a: int, b: int): int
    requires b > 0
  {
    a - Quot(a, b) * b
  }

  /** "%02d" */
  function Padded(n: int): Text {
    if 0 <= n < 10 then [ZERO] + Dec(n) else Dec(n)
  }

  /** The play length in milliseconds; none counts as zero. */
  predicate HasDuration(fields: Fields) {
    match Dicts.Lookup(fields, DURATION)
    case None => true
    case Some(v) => v.Int32? && v.i <= INT_MAX - 500
  }

  function Duration(fields: Fields): (d: int)
    requires HasDuration(fields)
    ensures d + 500 <= INT_MAX
  {
    match Dicts.Lookup(fields, DURATION)
    case None => 0
    case Some(v) => v.i
  }

  /** The play length is read only where minutes or seconds are asked for. */
  predicate Fillable(key: Text, fields: Fields) {
    key == SECONDS || key == MINUTES ==> HasDuration(fields)
  }

  /** What stands for ${key}: nothing when the key is missing or neither a string nor an integer. */
  function Field(key: Text, fields: Fields): Text
    requires Fillable(key, fields)
  {
    if key == SECONDS then
      if Duration(fields) == 0 then [ZERO, ZERO] else Padded(Rem(Quot(Duration(fields) + 500, 1000), 60))
    else if key == MINUTES then
      if Duration(fields) == 0 then [ZERO, ZERO] else Padded(Quot(Duration(fields) + 500, 60000))
    else
      match Dicts.Lookup(fields, key)
      case None => []
      case Some(v) =>
        match v
        case Str(s) => s
        case Int32(i) => DecNat(Unsigned(i))
        case _ => []
  }

  /** The key of the first place. */
  function KeyOf(fmt: Text): Text
    requires FindOpen(fmt).Some?
  {
    var rest := fmt[FindOpen(fmt).value + 2..];
    rest[..Span(rest)]
  }

  /** What follows the first place, unless it is never closed. */
  function MoreOf(fmt: Text): (r: Option<Text>)
    requires FindOpen(fmt).Some?
    ensures r.Some? ==> |r.value| < |fmt|
  {
    var rest := fmt[FindOpen(fmt).value + 2..];
    if Span(rest) < |rest| then Some(rest[Span(rest) + 1..]) else None
  }

  /** Every place of the format can be filled. */
  predicate Expandable(fmt: Text, fields: Fields)
    decreases |fmt|
  {
    FindOpen(fmt).None? ||
    (&& Fillable(KeyOf(fmt), fields)
     && (MoreOf(fmt).Some? ==> Expandable(MoreOf(fmt).value, fields)))
  }

  /** A play length is enough, whatever the format asks for. */
  lemma {:induction false} AlwaysExpandable(fmt: Text, fields: Fields)
    requires HasDuration(fields)
    ensures Expandable(fmt, fields)
    decreases |fmt|
  {
    hide HasDuration, KeyOf, MoreOf;
    if FindOpen(fmt).Some? && MoreOf(fmt).Some? {
      AlwaysExpandable(MoreOf(fmt).value, fields);
    }
  }

  function Then(a: Text, b: Text): (r: Text)
    ensures r == a + b
  {
    a + b
  }

  /** The expansion without a limit; a place that is never closed ends it. */
  function Expand(fmt: Text, fields: Fields): Text
    requires Expandable(fmt, fields)
    decreases |fmt|
  {
    match FindOpen(fmt)
    case None => fmt
    case Some(i) =>
      var more := if MoreOf(fmt).Some? then Expand(MoreOf(fmt).value, fields) else [];
      Then(fmt[..i], Then(Field(KeyOf(fmt), fields), more))
  }

  // ---------------------------------------------------------------- what a place shows

  /** `q` is a / b, cut off towards zero. */
  predicate Truncates(q: int, a: int, b: int)
    requires b > 0
  {
    if a >= 0 then q * b <= a < q * b + b else q * b - b < a <= q * b
  }

  lemma PaddedShows(n: int)
    ensures Shows(Padded(n), n, 2)
  {
    hide Number;
    DecNatPlain(if n < 0 then 0 - n else n);
    if 0 <= n < 10 {
      var t := Padded(n);
      assert t == [ZERO, ZERO + n];
      TwoDigitNumber(n);
    } else if n < 0 {
      assert Padded(n)[1..] == DecNat(0 - n);
    } else {
      TwoOrMore(n);
    }
  }

  lemma TwoDigitNumber(n: nat)
    requires n < 10
    ensures Number([ZERO, ZERO + n]) == n
  {
    var t := [ZERO, ZERO + n];
    assert t[..1] == [ZERO] && [ZERO][..0] == [];
    assert Number([ZERO]) == 0;
  }

  lemma TwoOrMore(n: nat)
    requires n >= 10
    ensures |DecNat(n)| >= 2
  {
  }

  /**
   Minutes and seconds, two characters at least each, add up to the play length, rounded to seconds; both
   have its sign.
   */
  lemma MinutesAndSeconds(fields: Fields)
    requires HasDuration(fields)
    ensures exists m, s ::
      && Shows(Field(T("minutes"), fields), m, 2) && Shows(Field(T("seconds"), fields), s, 2)
      && Truncates(m * 60 + s, Milliseconds(fields) + 500, 1000) && -60 < s < 60
      && (s > 0 ==> m >= 0) && (s < 0 ==> m <= 0)
  {
    hide Shows;
    Different();
    var d := Duration(fields) + 500;
    assert Padded(0) == [ZERO, ZERO];
    PaddedShows(0);
    PaddedShows(Quot(d, 60000));
    PaddedShows(Rem(Quot(d, 1000), 60));
    Truncated(d);
    var m, s := if Duration(fields) == 0 then 0 else Quot(d, 60000), if Duration(fields) == 0 then 0 else Rem(Quot(d, 1000), 60);
    assert Shows(Field(T("minutes"), fields), m, 2) && Shows(Field(T("seconds"), fields), s, 2);
  }

  /** The play length as it is in the dict. */
  function Milliseconds(fields: Fields): int {
    var v: Option<Value> := Dicts.Lookup(fields, T("duration"));
    match v
    case Some(Int32(i)) => i
    case _ => 0
  }

  lemma Truncated(d: int)
    ensures Truncates(Quot(d, 60000) * 60 + Rem(Quot(d, 1000), 60), d, 1000)
    ensures var s := Rem(Quot(d, 1000), 60);
            -60 < s < 60 && (s > 0 ==> Quot(d, 60000) >= 0) && (s < 0 ==> Quot(d, 60000) <= 0)
  {
    var a := if d < 0 then 0 - d else d;
    assert a / 60000 == a / 1000 / 60;
  }

  lemma Different()
    ensures MINUTES != SECONDS
  {
    assert MINUTES[0] == 'm' as int && SECONDS[0] == 's' as int;
  }

  /**
   Any other place shows a string as it is, an integer as the unsigned number with the same 32 bits,
   and nothing for a value of another type or for a key that is not there.
   */
  lemma FieldShows(key: Text, fields: Fields)
    requires key != T("seconds") && key != T("minutes")
    ensures var v: Option<Value> := Dicts.Lookup(fields, key);
            match v
            case Some(Str(s)) => Field(key, fields) == s
            case Some(Int32(i)) => Shows(Field(key, fields), if i < 0 then i + 0x1_0000_0000 else i, 1)
            case _ => Field(key, fields) == []
  {
    var v: Option<Value> := Dicts.Lookup(fields, key);
    match v
    case Some(Int32(i)) => DecNatPlain(Unsigned(i));
    case _ =>
  }

  // ---------------------------------------------------------------- what a format expands to

  predicate NoPlace(a: Text) { forall i :: 0 <= i < |a| - 1 ==> !(a[i] == '$' as int && a[i + 1] == '{' as int) }

  lemma {:induction false} OpenAt(a: Text, rest: Text)
    requires NoPlace(a) && FindOpen(rest) == Some(0)
    ensures FindOpen(a + rest) == Some(|a|)
  {
    if a == [] {
      assert a + rest == rest;
    } else {
      assert (a + rest)[1..] == a[1..] + rest;
      var b := a[1..];
      assert forall i {:trigger b[i]} :: 0 <= i < |b| ==> b[i] == a[i + 1];
      OpenAt(a[1..], rest);
      assert rest[0] == '$' as int;
      assert |a| > 1 ==> (a + rest)[1] == a[1];
    }
  }

  lemma {:induction false} OpenNowhere(a: Text)
    requires NoPlace(a)
    ensures FindOpen(a) == None
  {
    if |a| >= 2 {
      var b := a[1..];
      assert forall i {:trigger b[i]} :: 0 <= i < |b| ==> b[i] == a[i + 1];
      OpenNowhere(a[1..]);
    }
  }

  lemma {:induction false} SpanTo(k: Text, rest: Text)
    requires '}' as int !in k && (rest == [] || rest[0] == '}' as int)
    ensures Span(k + rest) == |k|
  {
    if k == [] {
      assert k + rest == rest;
    } else {
      assert (k + rest)[1..] == k[1..] + rest;
      SpanTo(k[1..], rest);
    }
  }

  /** Text without a place is copied. */
  lemma PlainExpands(a: Text, fields: Fields)
    requires NoPlace(a)
    ensures Expandable(a, fields) && Expand(a, fields) == a
  {
    OpenNowhere(a);
  }

  /** A place expands to what its key shows, and the rest follows. */
  lemma PlaceExpands(a: Text, key: Text, rest: Text, fields: Fields)
    requires NoPlace(a) && '}' as int !in key
    ensures var fmt := a + T("${") + key + T("}") + rest;
            && (Expandable(fmt, fields) <==> Fillable(key, fields) && Expandable(rest, fields))
            && (Expandable(fmt, fields) ==> Expand(fmt, fields) == a + Field(key, fields) + Expand(rest, fields))
  {
    hide Field, Fillable, FindOpen, Span;
    var place, fmt := T("${") + key + T("}") + rest, a + T("${") + key + T("}") + rest;
    var inside := key + (T("}") + rest);
    assert fmt == a + place && place[0] == '$' as int && place[1] == '{' as int;
    FindsFront(place);
    OpenAt(a, place);
    assert fmt[|a| + 2..] == inside;
    SpanTo(key, T("}") + rest);
    assert inside[..|key|] == key && inside[|key| + 1..] == rest;
    assert fmt[..|a|] == a;
    assert KeyOf(fmt) == key && MoreOf(fmt) == Some(rest);
    if Expandable(fmt, fields) {
      ExpandStep(fmt, fields);
      assert a + (Field(key, fields) + Expand(rest, fields)) == a + Field(key, fields) + Expand(rest, fields);
    }
  }

  /** A place that is not closed is the last one. */
  lemma OpenPlaceExpands(a: Text, key: Text, fields: Fields)
    requires NoPlace(a) && '}' as int !in key
    ensures var fmt := a + T("${") + key;
            && (Expandable(fmt, fields) <==> Fillable(key, fields))
            && (Expandable(fmt, fields) ==> Expand(fmt, fields) == a + Field(key, fields))
  {
    hide Field, Fillable, FindOpen, Span;
    var place, fmt := T("${") + key, a + T("${") + key;
    assert fmt == a + place && place[0] == '$' as int && place[1] == '{' as int;
    FindsFront(place);
    OpenAt(a, place);
    assert fmt[|a| + 2..] == key && key + [] == key;
    SpanTo(key, []);
    assert fmt[..|a|] == a && key[..|key|] == key;
    assert KeyOf(fmt) == key && MoreOf(fmt) == None;
    if Expandable(fmt, fields) {
      ExpandStep(fmt, fields);
      assert a + (Field(key, fields) + []) == a + Field(key, fields);
    }
  }

  lemma FindsFront(s: Text)
    requires |s| >= 2 && s[0] == '$' as int && s[1] == '{' as int
    ensures FindOpen(s) == Some(0)
  {
  }

  /** The first n characters. */
  function Cut(s: Text, n: nat): (r: Text)
    ensures |r| <= n
  {
    if |s| <= n then s else s[..n]
  }

  /** Appending what still fits of `a` does not change the first n characters. */
  lemma CutStep(t: Text, a: Text, rest: Text, n: nat)
    requires |t| <= n
    ensures Cut(t + (a + rest), n) == Cut(t + Cut(a, n - |t|) + rest, n)
  {
    var l, r := t + (a + rest), t + Cut(a, n - |t|) + rest;
    if |t| + |a| <= n {
      assert l == r;
    } else {
      assert l[..n] == t + a[..n - |t|];
      assert r[..n] == t + a[..n - |t|];
    }
  }

  /** `target` holds the C string `t`. */
  ghost predicate Holds(target: array<byte>, t: Text)
    reads target
  {
    |t| < target.Length && target[..|t|] == t && target[|t|] == 0
  }

  method StrLen(target: array<byte>, ghost t: Text) returns (n: nat)
    requires Holds(target, t)
    ensures n == |t|
  {
    n := 0;
    while target[n] != 0
      invariant n <= |t|
      invariant forall k :: 0 <= k < |t| ==> target[k] == t[k] && t[k] in t
      decreases |t| - n
    {
      n := n + 1;
    }
  }

  /** strncat: at most `n` characters, then a terminator. */
  method StrNCat(target: array<byte>, src: Text, n: nat, ghost t: Text)
    requires Holds(target, t) && |t| + n < target.Length
    modifies target
    ensures Holds(target, t + Cut(src, n))
  {
    var at := StrLen(target, t);
    var m := if |src| < n then |src| else n;
    forall k | 0 <= k < m {
      target[at + k] := src[k];
    }
    target[at + m] := 0;
    assert Cut(src, n) == src[..m];
    assert target[..at + m] == t + src[..m];
  }

  /** The output is exactly the first len - 1 characters of the unlimited expansion. */
  method DictFormat(target: array<byte>, fmt: Text, fields: Fields) returns (n: nat)
    requires Expandable(fmt, fields) && target.Length >= 1
    modifies target
    ensures CString(target[..]) == Cut(Expand(fmt, fields), target.Length - 1)
    ensures n == |CString(target[..])|
  {
    hide Field, Expand, Expandable, Fillable, Duration, HasDuration, Cut;
    var len := target.Length;
    forall k | 0 <= k < len {
      target[k] := 0;
    }
    var pos := fmt;
    ghost var t: Text := [];
    ghost var left := Expand(fmt, fields);
    ghost var all := left;
    var done := false;
    n := 0;
    assert t + left == left;
    while !done && n + 1 < len
      invariant Holds(target, t) && n == |t|
      invariant Cut(all, len - 1) == Cut(t + left, len - 1)
      invariant if done then left == [] else Expandable(pos, fields) && left == Expand(pos, fields)
      decreases !done, |pos|
    {
      ExpandStep(pos, fields);
      var open := FindOpen(pos);
      if open == None {
        t, left := AppendPart(target, pos, t, left, []);
        done := true;
      } else {
        var rest := pos[open.value + 2..];
        var k := Span(rest);
        var key := rest[..k];
        ghost var tail := if MoreOf(pos).Some? then Expand(MoreOf(pos).value, fields) else [];
        t, left := AppendPart(target, pos[..open.value], t, left, Field(key, fields) + tail);
        t, left := AppendPart(target, Field(key, fields), t, left, tail);
        if k < |rest| {
          pos := rest[k + 1..];
        } else {
          done := true;
        }
      }
      n := StrLen(target, t);
    }
    CutFull(t, left, len - 1, done);
    assert target[..] == t + [0] + target[n + 1..];
    CStringOfTerminated(t, target[n + 1..]);
  }

  /** One strncat of as much as fits. */
  method AppendPart(target: array<byte>, part: Text, ghost t: Text, ghost left: Text, ghost tail: Text)
    returns (ghost t': Text, ghost left': Text)
    requires Holds(target, t) && left == part + tail
    modifies target
    ensures Holds(target, t') && left' == tail
    ensures Cut(t' + left', target.Length - 1) == Cut(t + left, target.Length - 1)
  {
    var used := StrLen(target, t);
    CutStep(t, part, tail, target.Length - 1);
    StrNCat(target, part, target.Length - used - 1, t);
    t' := t + Cut(part, target.Length - used - 1);
    left' := tail;
  }

  lemma CutFull(t: Text, left: Text, n: nat, done: bool)
    requires |t| <= n && (if done then left == [] else |t| == n)
    ensures Cut(t + left, n) == t
  {
    assert t + [] == t;
    assert (t + left)[..|t|] == t;
  }

  lemma ExpandStep(pos: Text, fields: Fields)
    requires Expandable(pos, fields)
    ensures FindOpen(pos).None? ==> Expand(pos, fields) == pos + []
    ensures FindOpen(pos).Some? ==>
      && Fillable(KeyOf(pos), fields)
      && (MoreOf(pos).Some? ==> Expandable(MoreOf(pos).value, fields))
      && Expand(pos, fields) == pos[..FindOpen(pos).value]
           + (Field(KeyOf(pos), fields) + if MoreOf(pos).Some? then Expand(MoreOf(pos).value, fields) else [])
  {
    hide Field, Fillable, HasDuration, KeyOf, MoreOf;
    assert pos + [] == pos;
  }
}
