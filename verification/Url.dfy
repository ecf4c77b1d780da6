/**
 Media urls: percent-encoding (section 2.1 of RFC 3986) with '+' for a space, the arguments of an
 encoded url, and decoding back to bytes.
 */
module Urls {
  import opened Bytes
  import opened Values
  import Dicts
  import Utf8

  /** GOODCHAR: letters, digits and  : / - . _ */
  predicate Good(c: byte) {
    || 97 <= c <= 122
    || 65 <= c <= 90
    || 48 <= c <= 57
    || c == 58 || c == 47 || c == 45 || c == 46 || c == 95
  }

  /** What an encoded url may hold: also  + % ? = & */
  predicate UrlChar(c: byte) {
    Good(c) || c == 43 || c == 37 || c == 63 || c == 61 || c == 38
  }

  predicate Verified(s: seq<byte>) { forall k :: 0 <= k < |s| ==> UrlChar(s[k]) }

  function HexDigit(d: int): (c: byte)
    requires 0 <= d < 16
    ensures Good(c) && c != 0
  {
    if d < 10 then 48 + d else 87 + d
  }

  function EncodeChar(c: byte): seq<byte> {
    if Good(c) then [c] else if c == 32 then [43] else [37, HexDigit(c / 16), HexDigit(c % 16)]
  }

  function Encode(url: seq<byte>): seq<byte> {
    if url == [] then [] else EncodeChar(url[0]) + Encode(url[1..])
  }

  lemma {:induction false} EncodeConcat(a: seq<byte>, b: seq<byte>)
    ensures Encode(a + b) == Encode(a) + Encode(b)
  {
    if a == [] {
      assert a + b == b;
    } else {
      assert (a + b)[1..] == a[1..] + b;
      EncodeConcat(a[1..], b);
    }
  }

  /** The first argument is introduced by '?', the others by '&'; a value that is not a string is left out. */
  function EncodeArg(p: Pair<Value>, first: bool): seq<byte> {
    [if first then 63 else 38] + p.key + if p.val.Str? then [61] + p.val.s else []
  }

  function EncodeArgs(args: seq<Pair<Value>>, first: bool): seq<byte> {
    if args == [] then [] else EncodeArg(args[0], first) + EncodeArgs(args[1..], false)
  }

  function EncodeUrl(url: Text, args: seq<Pair<Value>>): seq<byte> {
    Encode(url) + EncodeArgs(args, true)
  }

  /** The room reserved for an argument: none, with a warning, when it is neither a string nor none. */
  function ArgRoom(p: Pair<Value>): nat {
    match p.val
    case Nothing => |p.key| + 1
    case Str(s) => |p.key| + |s| + 2
    case _ => 0
  }

  function ArgsRoom(args: seq<Pair<Value>>): nat {
    if args == [] then 0 else ArgRoom(args[0]) + ArgsRoom(args[1..])
  }

  function Allocation(url: Text, args: seq<Pair<Value>>): nat { |url| * 3 + 1 + ArgsRoom(args) }

  /** The encoding and its terminator fit the allocation. */
  predicate Fits(url: Text, args: seq<Pair<Value>>) {
    |EncodeUrl(url, args)| < Allocation(url, args)
  }

  /** What the arguments without room take, and what the url leaves over of its own room. */
  function Unreserved(args: seq<Pair<Value>>): nat {
    if args == [] then 0
    else (if args[0].val.Nothing? || args[0].val.Str? then 0 else |args[0].key| + 1) + Unreserved(args[1..])
  }

  function Spare(url: seq<byte>): nat {
    if url == [] then 0 else (if Good(url[0]) || url[0] == 32 then 2 else 0) + Spare(url[1..])
  }

  lemma {:induction false} EncodedLength(url: seq<byte>)
    ensures |Encode(url)| + Spare(url) == 3 * |url|
  {
    if url != [] {
      EncodedLength(url[1..]);
    }
  }

  lemma {:induction false} ArgsLength(args: seq<Pair<Value>>, first: bool)
    ensures |EncodeArgs(args, first)| == ArgsRoom(args) + Unreserved(args)
  {
    if args != [] {
      ArgsLength(args[1..], false);
    }
  }

  /** The allocation suffices exactly when arguments of other types need no more than the url's own spare room. */
  lemma FitsExactly(url: Text, args: seq<Pair<Value>>)
    ensures Fits(url, args) <==> Unreserved(args) <= Spare(url)
  {
    EncodedLength(url);
    ArgsLength(args, true);
  }

  /** A number as the value of an argument has no room: "?a" behind an empty url is written past the allocation. */
  lemma NumberDoesNotFit()
    ensures !Fits([], [Dicts.Pair([97], Int32(1))])
  {
    FitsExactly([], [Dicts.Pair([97], Int32(1))]);
    assert [Dicts.Pair([97], Int32(1))][1..] == [];
  }

  /** With strings and none values only, it always does. */
  lemma {:induction false} StringsFit(url: Text, args: seq<Pair<Value>>)
    requires forall p :: p in args ==> p.val.Str? || p.val.Nothing?
    ensures Unreserved(args) == 0 && Fits(url, args)
  {
    if args != [] {
      assert args[0] in args;
      StringsFit(url, args[1..]);
    }
    FitsExactly(url, args);
  }

  /** Encoded bytes are printable ASCII, so they pass the url check and the UTF-8 check. */
  lemma {:induction false} EncodeVerified(url: seq<byte>)
    ensures 0 !in Encode(url) && Verified(Encode(url))
    ensures Utf8.Ascii(Encode(url)) && Utf8.Valid(Encode(url))
  {
    AllPrintable(url);
    Utf8.AsciiIsValid(Encode(url));
  }

  predicate Printable(c: byte) { UrlChar(c) && 0 < c < 0x80 }

  lemma {:induction false} AllPrintable(url: seq<byte>)
    ensures forall k :: 0 <= k < |Encode(url)| ==> Printable(Encode(url)[k])
  {
    hide Printable, EncodeChar;
    if url != [] {
      CharPrintable(url[0]);
      AllPrintable(url[1..]);
    }
  }

  lemma CharPrintable(c: byte)
    ensures forall k :: 0 <= k < |EncodeChar(c)| ==> Printable(EncodeChar(c)[k])
  {
  }

  /** With arguments the encoding passes exactly when every key and every string value does. */
  lemma {:induction false} ArgsVerified(args: seq<Pair<Value>>, first: bool)
    ensures Verified(EncodeArgs(args, first)) <==>
      forall p :: p in args ==> Verified(p.key) && (p.val.Str? ==> Verified(p.val.s))
  {
    if args != [] {
      ArgsVerified(args[1..], false);
      var a := EncodeArg(args[0], first);
      VerifiedConcat(a, EncodeArgs(args[1..], false));
      VerifiedConcat([if first then 63 else 38] + args[0].key, if args[0].val.Str? then [61] + args[0].val.s else []);
      VerifiedConcat([if first then 63 else 38], args[0].key);
      if args[0].val.Str? { VerifiedConcat([61], args[0].val.s); }
      assert args == [args[0]] + args[1..];
    }
  }

  lemma VerifiedConcat(a: seq<byte>, b: seq<byte>)
    ensures Verified(a + b) <==> Verified(a) && Verified(b)
  {
    forall k | 0 <= k < |a| ensures (a + b)[k] == a[k] { }
    forall k | 0 <= k < |b| ensures (a + b)[|a| + k] == b[k] { }
  }

  lemma UrlVerified(url: Text, args: seq<Pair<Value>>)
    ensures Verified(EncodeUrl(url, args)) <==>
      forall p :: p in args ==> Verified(p.key) && (p.val.Str? ==> Verified(p.val.s))
  {
    EncodeVerified(url);
    ArgsVerified(args, true);
    VerifiedConcat(Encode(url), EncodeArgs(args, true));
  }

  function HexValue(c: byte): Option<nat> {
    if 48 <= c <= 57 then Some(c - 48)
    else if 97 <= c <= 102 then Some(c - 87)
    else if 65 <= c <= 70 then Some(c - 55)
    else None
  }

  predicate Space(c: byte) { c == 32 || 9 <= c <= 13 }

  /**
   strtoul in base 16 of two characters that must both be used, as an unsigned char.  A blank or
   a sign may stand in the place of the first digit; "0x" leaves the x unused.
   */
  function TwoDigits(a: byte, b: byte): Option<byte> {
    match HexValue(b)
    case None => None
    case Some(low) =>
      match HexValue(a)
      case Some(high) => Some(16 * high + low)
      case None =>
        if Space(a) || a == 43 then Some(low)
        else if a == 45 then Some((0x100 - low) % 0x100)
        else None
  }

  lemma HexRoundTrip(c: byte)
    ensures TwoDigits(HexDigit(c / 16), HexDigit(c % 16)) == Some(c)
  {
  }

  function Prefixed(c: byte, r: Option<seq<byte>>): Option<seq<byte>> {
    if r.Some? then Some([c] + r.value) else None
  }

  /** xmmsv_decode_url; None when a percent sign is not followed by two digits. */
  function Decode(s: Text): Option<seq<byte>> {
    if s == [] then Some([])
    else if s[0] == 43 then Prefixed(32, Decode(s[1..]))
    else if s[0] == 37 then
      if |s| < 3 then None
      else
        match TwoDigits(s[1], s[2])
        case None => None
        case Some(c) => Prefixed(c, Decode(s[3..]))
    else Prefixed(s[0], Decode(s[1..]))
  }

  lemma DecodeChar(c: byte, rest: Text)
    ensures 0 !in EncodeChar(c) + rest
    ensures Decode(EncodeChar(c) + rest) == Prefixed(c, Decode(rest))
  {
    var s := EncodeChar(c) + rest;
    HexRoundTrip(c);
    if Good(c) || c == 32 {
      assert s[1..] == rest;
    } else {
      assert s[3..] == rest;
    }
  }

  /** Decoding gives back the bytes of every url, so the encoding is injective. */
  lemma {:induction false} UrlRoundTrip(url: seq<byte>)
    ensures 0 !in Encode(url) && Decode(Encode(url)) == Some(url)
  {
    if url != [] {
      UrlRoundTrip(url[1..]);
      DecodeChar(url[0], Encode(url[1..]));
      assert url == [url[0]] + url[1..];
    }
  }

  lemma EncodeInjective(a: seq<byte>, b: seq<byte>)
    requires Encode(a) == Encode(b)
    ensures a == b
  {
    UrlRoundTrip(a);
    UrlRoundTrip(b);
  }

  /** Decoding never grows the url: the buffer of strlen bytes suffices. */
  lemma {:induction false} DecodeShrinks(s: Text)
    ensures Decode(s).Some? ==> |Decode(s).value| <= |s|
  {
    if s != [] {
      DecodeShrinks(s[1..]);
      if |s| >= 3 { DecodeShrinks(s[3..]); }
    }
  }

  // ---------------------------------------------------------------- byte by byte

  /** Letters, digits and  : / - . _ + % ? = &  make up an encoded url. */
  lemma UrlCharIs(c: byte)
    ensures UrlChar(c) <==>
      || 'a' as int <= c <= 'z' as int || 'A' as int <= c <= 'Z' as int || '0' as int <= c <= '9' as int
      || c in [':' as int, '/' as int, '-' as int, '.' as int, '_' as int]
      || c in ['+' as int, '%' as int, '?' as int, '=' as int, '&' as int]
  {
  }

  /** Letters, digits and  : / - . _  stay, a blank is a plus, and the rest is two small hex digits. */
  lemma EncodeByte(c: byte, rest: seq<byte>)
    ensures Encode([c] + rest) ==
      (if 'a' as int <= c <= 'z' as int || 'A' as int <= c <= 'Z' as int || '0' as int <= c <= '9' as int
         || c == ':' as int || c == '/' as int || c == '-' as int || c == '.' as int || c == '_' as int then [c]
       else if c == ' ' as int then ['+' as int]
       else ['%' as int, "0123456789abcdef"[c / 16] as int, "0123456789abcdef"[c % 16] as int])
      + Encode(rest)
  {
    assert ([c] + rest)[1..] == rest;
    HexIs(c / 16);
    HexIs(c % 16);
  }

  lemma HexIs(d: int)
    requires 0 <= d < 16
    ensures HexDigit(d) == "0123456789abcdef"[d] as int
  {
  }

  /** One more argument goes behind a question mark if it is the first, behind an ampersand otherwise. */
  lemma {:induction false} OneMoreArg(url: Text, args: seq<Pair<Value>>, p: Pair<Value>)
    ensures EncodeUrl(url, args + [p]) == EncodeUrl(url, args)
      + [if args == [] then '?' as int else '&' as int] + p.key + (if p.val.Str? then ['=' as int] + p.val.s else [])
  {
    LastArg(args, p, true);
  }

  lemma {:induction false} LastArg(args: seq<Pair<Value>>, p: Pair<Value>, first: bool)
    ensures EncodeArgs(args + [p], first) == EncodeArgs(args, first) + EncodeArg(p, first && args == [])
  {
    if args == [] {
      assert args + [p] == [p] && [p][1..] == [];
    } else {
      assert (args + [p])[1..] == args[1..] + [p];
      LastArg(args[1..], p, false);
    }
  }

  /** The value of a hex digit, small or capital. */
  predicate HexFor(c: byte, v: int) {
    || ('0' as int <= c <= '9' as int && v == c - '0' as int)
    || ('a' as int <= c <= 'f' as int && v == c - 'a' as int + 10)
    || ('A' as int <= c <= 'F' as int && v == c - 'A' as int + 10)
  }

  /** A plus is a blank, and what is no percent sign stands for itself. */
  lemma DecodePlain(c: byte, rest: Text)
    requires c != 0 && c != '%' as int
    ensures Decode([c] + rest) ==
      match Decode(rest)
      case None => None
      case Some(r) => Some([if c == '+' as int then ' ' as int else c] + r)
  {
    assert ([c] + rest)[1..] == rest;
  }

  /** A percent sign and two hex digits are one byte. */
  lemma DecodeHex(a: byte, b: byte, h: int, l: int, rest: Text)
    requires HexFor(a, h) && HexFor(b, l)
    ensures Decode(['%' as int, a, b] + rest) ==
      match Decode(rest)
      case None => None
      case Some(r) => Some([16 * h + l] + r)
  {
    assert (['%' as int, a, b] + rest)[3..] == rest;
  }

  predicate Sign(c: byte) { c == ' ' as int || c == '+' as int || c == '-' as int || 9 <= c <= 13 }

  /**
   A percent sign is refused where the text ends before two more characters, where the second is no
   hex digit, and where the first is neither one nor a blank nor a sign.
   */
  lemma DecodeRefused(s: Text)
    requires s != [] && s[0] == '%' as int
    requires |s| < 3 || (forall l :: !HexFor(s[2], l)) || (!Sign(s[1]) && forall h :: !HexFor(s[1], h))
    ensures Decode(s) == None
  {
    if |s| >= 3 {
      if HexValue(s[2]).Some? { assert HexFor(s[2], HexValue(s[2]).value); }
      if HexValue(s[1]).Some? { assert HexFor(s[1], HexValue(s[1]).value); }
    }
  }

  lemma OddDigits(a: byte, b: byte, l: int)
    requires Sign(a) && HexFor(b, l)
    ensures 0 <= l < 16 && TwoDigits(a, b) == Some(if a != '-' as int then l else if l == 0 then 0 else 0x100 - l)
  {
  }

  /** Behind a blank or a plus the second digit counts alone, behind a minus its complement. */
  lemma DecodeSigned(a: byte, b: byte, l: int, rest: Text)
    requires Sign(a) && HexFor(b, l)
    ensures Decode(['%' as int, a, b] + rest) ==
      match Decode(rest)
      case None => None
      case Some(r) => Some([if a != '-' as int then l else if l == 0 then 0 else 0x100 - l] + r)
  {
    OddDigits(a, b, l);
    hide TwoDigits, HexFor, Sign;
    assert (['%' as int, a, b] + rest)[3..] == rest;
  }

  // ---------------------------------------------------------------- the loops

  /** memcpy behind the bytes written so far. */
  method Store(res: array<byte>, j: nat, s: seq<byte>) returns (end: nat)
    requires j + |s| <= res.Length
    modifies res
    ensures end == j + |s| && res[..end] == old(res[..j]) + s
  {
    forall k | 0 <= k < |s| {
      res[j + k] := s[k];
    }
    end := j + |s|;
  }

  lemma EncodeNext(url: seq<byte>, i: nat)
    requires i < |url|
    ensures Encode(url[..i + 1]) == Encode(url[..i]) + EncodeChar(url[i])
    ensures |Encode(url[..i + 1])| <= |Encode(url)|
  {
    assert url[..i + 1] == url[..i] + [url[i]] && [url[i]][1..] == [];
    EncodeConcat(url[..i], [url[i]]);
    assert url == url[..i + 1] + url[i + 1..];
    EncodeConcat(url[..i + 1], url[i + 1..]);
    assert Encode([url[i]]) == EncodeChar(url[i]);
  }

  method SumLengths(args: seq<Pair<Value>>) returns (extra: nat)
    ensures extra == ArgsRoom(args)
  {
    extra := 0;
    for i := 0 to |args|
      invariant extra + ArgsRoom(args[i..]) == ArgsRoom(args)
    {
      assert args[i..][1..] == args[i + 1..];
      match args[i].val {
        case Nothing => extra := extra + |args[i].key| + 1;
        case Str(s) => extra := extra + |args[i].key| + |s| + 2;
        case _ =>
      }
    }
  }

  /** The encoder proper; every store is inside the allocation. */
  method EncodeInto(url: Text, args: seq<Pair<Value>>) returns (res: array<byte>, j: nat)
    requires Fits(url, args)
    ensures fresh(res) && res.Length == Allocation(url, args)
    ensures j < res.Length && res[j] == 0 && res[..j] == EncodeUrl(url, args)
    ensures CString(res[..]) == EncodeUrl(url, args)
  {
    hide Encode, EncodeArgs, EncodeChar, EncodeArg, ArgsRoom;
    var extra := SumLengths(args);
    res := new byte[|url| * 3 + 1 + extra];
    j := 0;
    EncodeNone();
    for i := 0 to |url|
      invariant j <= res.Length && res[..j] == Encode(url[..i])
    {
      EncodeNext(url, i);
      j := EncodeOne(res, j, url[i]);
    }
    assert url[..|url|] == url;
    assert args[0..] == args;
    ghost var all := EncodeUrl(url, args);
    for i := 0 to |args|
      invariant j <= res.Length && all == res[..j] + EncodeArgs(args[i..], i == 0)
    {
      ArgsNext(args, i);
      j := EncodeOneArg(res, j, args[i], i == 0, EncodeArgs(args[i + 1..], false));
    }
    ArgsEnd(args[|args|..], |args| == 0);
    assert res[..j] + [] == res[..j];
    res[j] := 0;
    UrlText(url, args);
    assert res[..] == all + [0] + res[j + 1..];
    CStringOfTerminated(all, res[j + 1..]);
  }

  lemma ArgsEnd(args: seq<Pair<Value>>, first: bool)
    requires args == []
    ensures EncodeArgs(args, first) == []
  {
  }

  lemma {:induction false} ArgsText(args: seq<Pair<Value>>, first: bool)
    ensures 0 !in EncodeArgs(args, first)
  {
    if args != [] {
      ArgsText(args[1..], false);
    }
  }

  /** No NUL in the encoding: the C string ends where the writing ended. */
  lemma UrlText(url: Text, args: seq<Pair<Value>>)
    ensures 0 !in EncodeUrl(url, args)
  {
    EncodeVerified(url);
    ArgsText(args, true);
  }

  lemma EncodeNone()
    ensures Encode([]) == []
  {
  }

  lemma ArgsNext(args: seq<Pair<Value>>, i: nat)
    requires i < |args|
    ensures EncodeArgs(args[i..], i == 0) == EncodeArg(args[i], i == 0) + EncodeArgs(args[i + 1..], false)
  {
    assert args[i..][1..] == args[i + 1..];
  }

  method EncodeOne(res: array<byte>, j: nat, chr: byte) returns (end: nat)
    requires j + |EncodeChar(chr)| <= res.Length
    modifies res
    ensures end == j + |EncodeChar(chr)| && res[..end] == old(res[..j]) + EncodeChar(chr)
  {
    if Good(chr) {
      end := Store(res, j, [chr]);
    } else if chr == 32 {
      end := Store(res, j, [43]);
    } else {
      end := Store(res, j, [37, HexDigit(chr / 16), HexDigit(chr % 16)]);
    }
  }

  method EncodeOneArg(res: array<byte>, j: nat, p: Pair<Value>, first: bool, ghost rest: seq<byte>)
    returns (end: nat)
    requires j + |EncodeArg(p, first)| + |rest| < res.Length
    modifies res
    ensures end == j + |EncodeArg(p, first)|
    ensures res[..end] + rest == old(res[..j]) + (EncodeArg(p, first) + rest)
  {
    end := Store(res, j, [if first then 63 else 38]);
    end := Store(res, end, p.key);
    if p.val.Str? {
      end := Store(res, end, [61]);
      end := Store(res, end, p.val.s);
    }
  }

  /** The scan of the zero-terminated string into a buffer of the same length. */
  method DecodeUrl(ins: Text) returns (r: Option<seq<byte>>)
    ensures r == Decode(ins)
  {
    hide Decode, TwoDigits;
    var buf := ins + [0];
    var url := new byte[|ins|];
    var i, j := 0, 0;
    assert ins[0..] == ins;
    AfterNone(Decode(ins));
    while buf[i] != 0
      invariant 0 <= j <= i <= |ins|
      invariant Decode(ins) == After(url[..j], Decode(ins[i..]))
      decreases |ins| - i
    {
      ghost var start := i;
      DecodeStep(ins, i);
      var chr := buf[i];
      i := i + 1;
      if chr == 43 {
        chr := 32;
      } else if chr == 37 {
        var t0 := buf[i];
        i := i + 1;
        if t0 == 0 {
          return None;
        }
        var t1 := buf[i];
        i := i + 1;
        if t1 == 0 {
          return None;
        }
        var v := TwoDigits(t0, t1);
        if v == None {
          return None;
        }
        chr := v.value;
      }
      AfterOne(url[..j], chr, Decode(ins[i..]));
      url[j] := chr;
      j := j + 1;
      assert url[..j] == url[..j - 1] + [chr];
    }
    DecodeEnd(ins, i);
    assert url[..j] + [] == url[..j];
    return Some(url[..j]);
  }

  /** The bytes decoded so far in front of what the rest decodes to. */
  function After(done: seq<byte>, r: Option<seq<byte>>): Option<seq<byte>> {
    if r.Some? then Some(done + r.value) else None
  }

  lemma AfterNone(r: Option<seq<byte>>)
    ensures After([], r) == r
  {
    if r.Some? {
      assert [] + r.value == r.value;
    }
  }

  lemma AfterOne(done: seq<byte>, c: byte, r: Option<seq<byte>>)
    ensures After(done, Prefixed(c, r)) == After(done + [c], r)
  {
    if r.Some? {
      assert done + ([c] + r.value) == done + [c] + r.value;
    }
  }

  lemma DecodeStep(s: Text, i: nat)
    requires i < |s|
    ensures Decode(s[i..]) ==
      if s[i] == 43 then Prefixed(32, Decode(s[i + 1..]))
      else if s[i] == 37 then
        if i + 3 > |s| then None
        else if TwoDigits(s[i + 1], s[i + 2]) == None then None
        else Prefixed(TwoDigits(s[i + 1], s[i + 2]).value, Decode(s[i + 3..]))
      else Prefixed(s[i], Decode(s[i + 1..]))
  {
    assert s[i..][1..] == s[i + 1..];
    if i + 3 <= |s| { assert s[i..][3..] == s[i + 3..]; }
  }

  lemma DecodeEnd(s: Text, i: nat)
    requires i == |s|
    ensures Decode(s[i..]) == Some([])
  {
  }

  /** _xmmsc_medialib_verify_url */
  method VerifyUrl(url: Text) returns (ok: bool)
    ensures ok <==> Verified(url)
  {
    var buf := url + [0];
    var i := 0;
    while buf[i] != 0
      invariant 0 <= i <= |url| && Verified(url[..i])
      decreases |url| - i
    {
      if !UrlChar(buf[i]) {
        return false;
      }
      i := i + 1;
    }
    return true;
  }
}
