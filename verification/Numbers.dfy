/**
 Decimal numbers as the query parser reads, adjusts and prints them.
 */
module Numbers {
  import opened Bytes
  import opened Tokens

  const INT_MAX: int := 0x7fff_ffff
  const INT_MIN: int := -0x8000_0000
  const ZERO: byte := '0' as int
  const MINUS: byte := '-' as int

  predicate IsDigit(c: byte) { '0' as int <= c <= '9' as int }

  predicate Digits(t: seq<byte>) { forall i :: 0 <= i < |t| ==> IsDigit(t[i]) }

  /** The number that a string of digits stands for. */
  function Number(t: seq<byte>): (n: nat)
    requires Digits(t)
  {
    if t == [] then 0 else Number(t[..|t| - 1]) * 10 + (t[|t| - 1] - ZERO)
  }

  function Pow10(k: nat): (p: nat)
    ensures p > 0
  {
    if k == 0 then 1 else 10 * Pow10(k - 1)
  }

  /** printf's %d of a non-negative number. */
  function DecNat(n: nat): (t: Text)
    ensures Digits(t) && t != []
  {
    if n < 10 then [ZERO + n] else DecNat(n / 10) + [ZERO + n % 10]
  }

  function Dec(n: int): (t: Text) {
    if n < 0 then [MINUS] + DecNat(-n) else DecNat(n)
  }

  /** A decimal integer, as a comparison filter reads its value; nothing else is a number. */
  function Num(t: Text): Option<int> {
    if t != [] && Digits(t) then Some(Number(t))
    else if |t| > 1 && t[0] == MINUS && Digits(t[1..]) then Some(0 - Number(t[1..]))
    else None
  }

  function Clamp(n: int): int {
    if n > INT_MAX then INT_MAX else if n < INT_MIN then INT_MIN else n
  }

  /** Addition in int, which wraps. */
  function IntWrap(n: int): (r: int)
    ensures INT_MIN <= n <= INT_MAX ==> r == n
  {
    if n > INT_MAX then n - TWO_32 else if n < INT_MIN then n + TWO_32 else n
  }

  predicate IsSpace(c: byte) { c == 0x20 || 0x09 <= c <= 0x0d }

  function SkipSpace(t: Text): Text {
    if t != [] && IsSpace(t[0]) then SkipSpace(t[1..]) else t
  }

  /** strtol in base 10 when it consumes the whole string: white space, a sign, digits. */
  function StrToL(t: Text): Option<int> {
    if t == [] then Some(0) else
    var u := SkipSpace(t);
    var signed := u != [] && (u[0] == MINUS || u[0] == '+' as int);
    var d := if signed then u[1..] else u;
    if d == [] || !Digits(d) then None
    else Some(Clamp(if signed && u[0] == MINUS then 0 - Number(d) else Number(d)))
  }

  /** string_intadd: the sum is printed into as many characters as the old text had. */
  function IntAdd(t: Text, delta: int): (r: Option<Text>)
    requires -1 <= delta <= 1
    ensures r.Some? ==> |r.value| <= |t|
  {
    match StrToL(t)
    case None => None
    case Some(n) =>
      var d := Dec(IntWrap(n + delta));
      Some(if |d| <= |t| then d else d[..|t|])
  }

  // ---------------------------------------------------------------- values and lengths

  lemma {:induction false} DecNatValue(n: nat)
    ensures Number(DecNat(n)) == n
  {
    var d := DecNat(n);
    if n < 10 {
      assert d[..0] == [];
    } else {
      DecNatValue(n / 10);
      assert d[..|d| - 1] == DecNat(n / 10);
    }
  }

  lemma {:induction false} ValueBound(t: seq<byte>)
    requires Digits(t)
    ensures Number(t) < Pow10(|t|)
  {
    if t != [] { ValueBound(t[..|t| - 1]); }
  }

  /** The printed form of a number has k digits or fewer exactly when the number is below 10^k. */
  lemma {:induction false} DecNatLength(n: nat, k: nat)
    requires k > 0
    ensures |DecNat(n)| <= k <==> n < Pow10(k)
    decreases n
  {
    assert Pow10(k) == 10 * Pow10(k - 1);
    if n < 10 {
    } else if k == 1 {
      assert Pow10(0) == 1;
    } else {
      DecNatLength(n / 10, k - 1);
    }
  }

  predicate AllNines(t: seq<byte>) { forall i :: 0 <= i < |t| ==> t[i] == '9' as int }

  lemma {:induction false} NinesValue(t: seq<byte>)
    requires Digits(t)
    ensures Number(t) + 1 == Pow10(|t|) <==> AllNines(t)
  {
    if t != [] {
      var init, last := t[..|t| - 1], t[|t| - 1];
      NinesValue(init);
      ValueBound(init);
      assert Number(t) == Number(init) * 10 + (last - ZERO);
      if AllNines(t) {
        assert AllNines(init);
      } else if AllNines(init) && last == '9' as int {
        assert forall i :: 0 <= i < |t| ==> t[i] == if i < |t| - 1 then init[i] else last;
        assert false;
      }
    }
  }

  lemma {:induction false} ValueZero(t: seq<byte>)
    requires Digits(t)
    ensures Number(t) == 0 <==> forall i :: 0 <= i < |t| ==> t[i] == ZERO
  {
    if t != [] {
      var init, last := t[..|t| - 1], t[|t| - 1];
      ValueZero(init);
      assert Number(t) == Number(init) * 10 + (last - ZERO);
      assert forall i :: 0 <= i < |t| ==> t[i] == if i < |t| - 1 then init[i] else last;
    }
  }

  lemma StrToLOfDigits(t: Text)
    requires t != [] && Digits(t) && Number(t) <= INT_MAX
    ensures StrToL(t) == Some(Number(t))
  {
    assert IsDigit(t[0]);
  }

  // ---------------------------------------------------------------- reading and printing, in full

  /** `t` is the plain decimal form of `n`, without needless zeros but at least `width` long. */
  predicate Shows(t: Text, n: int, width: nat) {
    if n < 0 then t != [] && t[0] == '-' as int && Plain(t[1..], 0 - n, 1) else Plain(t, n, width)
  }

  predicate Plain(t: seq<byte>, n: nat, width: nat) {
    && t != [] && Digits(t) && Number(t) == n
    && |t| >= width && (|t| > width && |t| > 1 ==> t[0] != '0' as int)
  }

  lemma {:induction false} DecNatPlain(n: nat)
    ensures Plain(DecNat(n), n, 1)
  {
    DecNatValue(n);
    if n >= 10 {
      DecNatPlain(n / 10);
      assert DecNat(n)[0] == DecNat(n / 10)[0];
    }
  }

  lemma DecShows(n: int)
    ensures Shows(Dec(n), n, 1)
  {
    hide Number;
    DecNatPlain(if n < 0 then 0 - n else n);
    if n < 0 { assert Dec(n)[1..] == DecNat(0 - n); }
  }

  predicate Blank(c: byte) { c == ' ' as int || 9 <= c <= 13 }

  predicate Blanks(t: seq<byte>) { forall i :: 0 <= i < |t| ==> Blank(t[i]) }

  /** Blanks, a sign or none, digits. */
  predicate Written(t: seq<byte>, blanks: seq<byte>, sign: seq<byte>, d: seq<byte>) {
    && t == blanks + sign + d && Blanks(blanks)
    && (sign == [] || sign == ['+' as int] || sign == ['-' as int])
    && d != [] && forall i :: 0 <= i < |d| ==> '0' as int <= d[i] <= '9' as int
  }

  /** What the digits say, held inside 32 bits. */
  function Held(sign: seq<byte>, d: seq<byte>): int
    requires Digits(d)
  {
    var n := if sign == ['-' as int] then 0 - Number(d) else Number(d);
    if n > 0x7fff_ffff then 0x7fff_ffff else if n < -0x8000_0000 then -0x8000_0000 else n
  }

  lemma {:induction false} BlanksSkipped(blanks: Text, rest: Text)
    requires Blanks(blanks) && (rest != [] ==> !Blank(rest[0]))
    ensures SkipSpace(blanks + rest) == rest
  {
    if blanks == [] {
      assert blanks + rest == rest;
      if rest != [] { assert !IsSpace(rest[0]); }
    } else {
      assert (blanks + rest)[1..] == blanks[1..] + rest;
      assert IsSpace(blanks[0]);
      BlanksSkipped(blanks[1..], rest);
    }
  }

  lemma {:induction false} SkippedIs(t: Text)
    ensures SkipSpace(t) == [] || !Blank(SkipSpace(t)[0])
    ensures exists b :: Blanks(b) && t == b + SkipSpace(t)
  {
    if t == [] || !IsSpace(t[0]) {
      assert Blanks([]) && t == [] + t;
    } else {
      SkippedIs(t[1..]);
      var b :| Blanks(b) && t[1..] == b + SkipSpace(t[1..]);
      assert Blanks([t[0]] + b) && t == ([t[0]] + b) + SkipSpace(t[1..]);
    }
  }

  /** A number is read exactly from such a text, or from nothing. */
  lemma ReadsWritten(t: Text, blanks: Text, sign: Text, d: Text)
    requires Written(t, blanks, sign, d)
    ensures StrToL(t) == Some(Held(sign, d))
  {
    var rest: Text := sign + d;
    assert t == blanks + rest;
    SignFirst(sign, d, rest);
    BlanksSkipped(blanks, rest);
    ReadsRest(t, sign, d, rest);
  }

  lemma SignFirst(sign: seq<byte>, d: seq<byte>, rest: seq<byte>)
    requires rest == sign + d && d != [] && Digits(d)
    requires sign == [] || sign == ['+' as int] || sign == ['-' as int]
    ensures rest != [] && !Blank(rest[0])
    ensures if sign == [] then rest == d && IsDigit(rest[0]) else rest[0] == sign[0] && rest[1..] == d
  {
    assert IsDigit(d[0]);
  }

  lemma ReadsRest(t: Text, sign: seq<byte>, d: Text, rest: Text)
    requires t != [] && SkipSpace(t) == rest && rest != [] && d != [] && Digits(d)
    requires sign == [] || sign == ['+' as int] || sign == ['-' as int]
    requires if sign == [] then rest == d && IsDigit(rest[0]) else rest[0] == sign[0] && rest[1..] == d
    ensures StrToL(t) == Some(Held(sign, d))
  {
    hide SkipSpace, Number, Digits;
  }

  /** What is left behind the blanks is a sign or none, and digits. */
  lemma SignAndDigits(u: Text) returns (sign: Text, d: Text)
    requires var signed := u != [] && (u[0] == MINUS || u[0] == '+' as int);
             var e: Text := if signed then u[1..] else u;
             e != [] && Digits(e)
    ensures u == sign + d && (sign == [] || sign == ['+' as int] || sign == ['-' as int])
    ensures d != [] && Digits(d)
  {
    hide Digits;
    if u[0] == MINUS || u[0] == '+' as int {
      sign, d := [u[0]], u[1..];
    } else {
      sign, d := [], u;
    }
  }

  lemma ReadsOnlyWritten(t: Text) returns (blanks: Text, sign: Text, d: Text)
    requires t != [] && StrToL(t).Some?
    ensures Written(t, blanks, sign, d)
  {
    hide Number, Blank;
    SkippedIs(t);
    var u := SkipSpace(t);
    sign, d := SignAndDigits(u);
    var b :| Blanks(b) && t == b + u;
    blanks := t[..|b|];
    WrittenAs(t, b, sign, d);
  }

  lemma WrittenAs(t: Text, b: seq<byte>, sign: Text, d: Text)
    requires t == b + (sign + d) && Blanks(b) && d != [] && Digits(d)
    requires sign == [] || sign == ['+' as int] || sign == ['-' as int]
    ensures Written(t, t[..|b|], sign, d)
  {
    hide Blank;
    assert t[..|b|] == b && b + (sign + d) == b + sign + d;
    assert forall i :: 0 <= i < |d| ==> IsDigit(d[i]);
  }

  /** string_intadd: the sum, in int, in plain decimals, of which as many characters stay as the text had. */
  lemma AddsWritten(t: Text, blanks: Text, sign: Text, d: Text, delta: int) returns (sum: Text)
    requires -1 <= delta <= 1 && Written(t, blanks, sign, d)
    ensures var n := Held(sign, d) + delta;
            Shows(sum, if n == 0x8000_0000 then -0x8000_0000 else if n == -0x8000_0001 then 0x7fff_ffff else n, 1)
    ensures IntAdd(t, delta) == Some(if |sum| <= |t| then sum else sum[..|t|])
  {
    hide StrToL, Shows, Dec;
    ReadsWritten(t, blanks, sign, d);
    sum := Dec(IntWrap(Held(sign, d) + delta));
    DecShows(IntWrap(Held(sign, d) + delta));
  }

  // ---------------------------------------------------------------- bound +- 1

  /** A bound that string_intadd can raise by one: not a row of nines. */
  predicate UpperFits(t: Text) { !AllNines(t) }

  /** A bound that string_intadd can lower by one: anything but the one-digit zero. */
  predicate LowerFits(t: Text) { t != [ZERO] }

  /** The number that a raised bound denotes: the next one, or for nines the power of ten that is left of it. */
  function Raised(t: Text): int
    requires t != [] && Digits(t)
  {
    if UpperFits(t) then Number(t) + 1 else Pow10(|t| - 1)
  }

  /** The sum of a row of nines and one, cut to the width of the row. */
  lemma RaiseNines(t: Text)
    requires t != [] && Digits(t) && AllNines(t)
    ensures var d := DecNat(Number(t) + 1);
            |d| == |t| + 1 && Number(d[..|t|]) == Pow10(|t| - 1)
    ensures Pow10(|t| - 1) <= Number(t)
  {
    hide AllNines;
    var k := |t|;
    NinesValue(t);
    var v := Number(t) + 1;
    assert v == Pow10(k) == 10 * Pow10(k - 1);
    assert v / 10 == Pow10(k - 1);
    var d := DecNat(v);
    DecNatLength(v, k);
    DecNatLength(v, k + 1);
    assert Pow10(k + 1) == 10 * Pow10(k);
    assert d == DecNat(v / 10) + [ZERO + v % 10];
    assert d[..k] == DecNat(v / 10);
    DecNatValue(v / 10);
  }

  /** What raising a bound gives, for every bound; it is the next number exactly when the bound is not all nines. */
  lemma RaiseExact(t: Text)
    requires t != [] && Digits(t) && Number(t) < INT_MAX
    ensures IntAdd(t, 1).Some? && Num(IntAdd(t, 1).value) == Some(Raised(t))
    ensures Raised(t) == Number(t) + 1 <==> UpperFits(t)
    ensures !UpperFits(t) ==> Raised(t) <= Number(t)
  {
    hide AllNines, IntAdd, Num, Raised;
    NinesValue(t);
    if AllNines(t) {
      RaiseNines(t);
      RaisedIs(t);
    } else {
      RaisedIs(t);
    }
  }

  lemma NumOfDigits(d: Text)
    requires d != [] && Digits(d)
    ensures Num(d) == Some(Number(d))
  {
  }

  lemma IntAddOfDigits(t: Text, delta: int)
    requires -1 <= delta <= 1 && t != [] && Digits(t) && Number(t) <= INT_MAX && 0 <= Number(t) + delta <= INT_MAX
    ensures var d := DecNat(Number(t) + delta); IntAdd(t, delta) == Some(if |d| <= |t| then d else d[..|t|])
  {
    hide StrToL, Number, DecNat;
    StrToLOfDigits(t);
  }

  lemma RaisedIs(t: Text)
    requires t != [] && Digits(t) && Number(t) < INT_MAX
    ensures IntAdd(t, 1).Some? && Num(IntAdd(t, 1).value) == Some(Raised(t))
    ensures Raised(t) == if AllNines(t) then Pow10(|t| - 1) else Number(t) + 1
  {
    hide AllNines, IntAdd, Num, Number, DecNat;
    var v := Number(t) + 1;
    var d := DecNat(v);
    IntAddOfDigits(t, 1);
    ValueBound(t);
    NinesValue(t);
    DecNatLength(v, |t|);
    DecNatValue(v);
    if AllNines(t) {
      RaiseNines(t);
      assert Digits(d[..|t|]);
      NumOfDigits(d[..|t|]);
    } else {
      NumOfDigits(d);
    }
  }

  /** A positive bound always has room for the number before it. */
  lemma LowerPositive(t: Text)
    requires t != [] && Digits(t) && 0 < Number(t) <= INT_MAX
    ensures IntAdd(t, -1).Some? && Num(IntAdd(t, -1).value) == Some(Number(t) - 1) && LowerFits(t)
  {
    StrToLOfDigits(t);
    ValueBound(t);
    DecNatLength(Number(t) - 1, |t|);
    DecNatValue(Number(t) - 1);
    ValueZero(t);
  }

  /** Zero: "-1" needs two characters. */
  lemma LowerZero(t: Text)
    requires t != [] && Digits(t) && Number(t) == 0
    ensures IntAdd(t, -1) == Some(if |t| == 1 then [MINUS] else [MINUS, ZERO + 1])
    ensures LowerFits(t) <==> |t| > 1
  {
    StrToLOfDigits(t);
    assert Dec(-1) == [MINUS, ZERO + 1];
    assert [MINUS, ZERO + 1][..1] == [MINUS];
    ValueZero(t);
  }

  lemma NumOfMinusOne()
    ensures Num([MINUS, ZERO + 1]) == Some(-1) && Num([MINUS]) == None
  {
    assert [MINUS, ZERO + 1][1..] == [ZERO + 1] && [ZERO + 1][..0] == [];
    assert Number([ZERO + 1]) == 1;
  }

  /** Lowering a bound denotes the previous number exactly when the bound is not the lone zero. */
  lemma LowerExact(t: Text)
    requires t != [] && Digits(t) && Number(t) <= INT_MAX
    ensures IntAdd(t, -1).Some?
    ensures Num(IntAdd(t, -1).value) == Some(Number(t) - 1) <==> LowerFits(t)
    ensures !LowerFits(t) ==> Num(IntAdd(t, -1).value) == None
  {
    hide IntAdd, Num, LowerFits, Number;
    if Number(t) > 0 {
      LowerPositive(t);
    } else {
      LowerZero(t);
      NumOfMinusOne();
    }
  }

  // ---------------------------------------------------------------- bounds that do not fit an int

  lemma {:induction false} PowGrows(k: nat, n: nat)
    requires k <= n
    ensures Pow10(k) <= Pow10(n)
  {
    if k < n { PowGrows(k, n - 1); }
  }

  lemma TenDigits()
    ensures Pow10(9) == 1_000_000_000 && Pow10(10) == 10_000_000_000
  {
    assert Pow10(3) == 1000;
    assert Pow10(6) == 1000 * Pow10(3);
    assert Pow10(9) == 1000 * Pow10(6);
  }

  lemma LongText(t: Text)
    requires Digits(t) && Number(t) >= INT_MAX
    ensures |t| >= 10
  {
    ValueBound(t);
    TenDigits();
    if |t| < 10 { PowGrows(|t|, 9); }
  }

  lemma HeldLarge(t: Text)
    requires t != [] && Digits(t) && Number(t) >= INT_MAX
    ensures StrToL(t) == Some(INT_MAX)
  {
    assert IsDigit(t[0]);
  }

  lemma SmallestDigits()
    ensures var d, e := DecNat(2147483648), DecNat(214748364);
            d == e + [ZERO + 8] && |d| == 10 && |e| == 9 && Number(d) == 2147483648 && Number(e) == 214748364
  {
    TenDigits();
    DecNatLength(2147483648, 10);
    DecNatLength(2147483648, 9);
    DecNatValue(2147483648);
    DecNatValue(214748364);
  }

  /** Raising it wraps around, and the smallest int is cut to the width of the text. */
  lemma RaiseLarge(t: Text)
    requires t != [] && Digits(t) && Number(t) >= INT_MAX
    ensures IntAdd(t, 1).Some?
    ensures Num(IntAdd(t, 1).value) == Some(if |t| == 10 then -214748364 else -2147483648)
  {
    hide StrToL, Number, DecNat;
    LongText(t);
    HeldLarge(t);
    SmallestDigits();
    var d, e := DecNat(2147483648), DecNat(214748364);
    assert Dec(-2147483648) == [MINUS] + d;
    assert ([MINUS] + d)[..10] == [MINUS] + e;
    assert ([MINUS] + d)[1..] == d && ([MINUS] + e)[1..] == e;
    assert !IsDigit(MINUS) && ([MINUS] + d)[0] == MINUS && ([MINUS] + e)[0] == MINUS;
  }

  /** Lowering it starts from the largest int. */
  lemma LowerLarge(t: Text)
    requires t != [] && Digits(t) && Number(t) > INT_MAX
    ensures IntAdd(t, -1).Some? && Num(IntAdd(t, -1).value) == Some(INT_MAX - 1)
  {
    hide StrToL, Number, DecNat;
    LongText(t);
    HeldLarge(t);
    TenDigits();
    DecNatLength(INT_MAX - 1, 10);
    DecNatValue(INT_MAX - 1);
    NumOfDigits(DecNat(INT_MAX - 1));
  }
}
