/**
 Bytes, C strings and the big-endian 32-bit words of the wire format.
 */
module Bytes {
  const TWO_32: int := 0x1_0000_0000

  type byte = x: int | 0 <= x < 0x100
  type uint32 = x: int | 0 <= x < TWO_32
  type int32 = x: int | -0x8000_0000 <= x < 0x8000_0000

  /** Arithmetic in uint32_t. */
  function Low32(n: nat): (r: uint32)
    ensures n < TWO_32 ==> r == n
  {
    n % 0x1_0000_0000
  }

  /** It wraps around. */
  lemma Low32Wraps(n: nat)
    ensures Low32(n + TWO_32) == Low32(n)
  {
  }

  /** A C string without its terminator: no byte of it is NUL. */
  type Text = s: seq<byte> | 0 !in s

  /** The four header words of a message. */
  const HEAD_LEN: nat := 16

  datatype Option<+T> = None | Some(value: T)

  /** The C string that starts at the front of `s`: everything before the first NUL. */
  function CString(s: seq<byte>): (t: Text)
    ensures |t| <= |s| && t == s[..|t|]
    ensures |t| < |s| ==> s[|t|] == 0
  {
    if s == [] || s[0] == 0 then [] else [s[0]] + CString(s[1..])
  }

  lemma {:induction false} CStringOfTerminated(t: Text, rest: seq<byte>)
    ensures CString(t + [0] + rest) == t
  {
    var s := t + [0] + rest;
    if t == [] {
    } else {
      assert s[1..] == t[1..] + [0] + rest;
      CStringOfTerminated(t[1..], rest);
    }
  }

  /** The `n` low-order base-256 digits of `v`, most significant first. */
  function BigEndian(v: nat, n: nat): (r: seq<byte>)
    ensures |r| == n
  {
    if n == 0 then [] else BigEndian(v / 0x100, n - 1) + [v % 0x100]
  }

  /** htonl, as the four bytes that memcpy stores. */
  function PutU32(v: uint32): (r: seq<byte>)
    ensures |r| == 4
  {
    BigEndian(v, 4)
  }

  function BigWord(a: int, b: int, c: int, d: int): int {
    a * 0x100_0000 + b * 0x1_0000 + c * 0x100 + d
  }

  /** ntohl of the four bytes at offset `i`. */
  function U32At(b: seq<byte>, i: nat): uint32
    requires i + 4 <= |b|
  {
    BigWord(b[i], b[i + 1], b[i + 2], b[i + 3])
  }

  /** The bytes `enc` stand in `buf` at offset `pos`. */
  ghost predicate At(buf: seq<byte>, pos: nat, enc: seq<byte>) {
    pos + |enc| <= |buf| && buf[pos..pos + |enc|] == enc
  }

  lemma AtSplit(buf: seq<byte>, pos: nat, a: seq<byte>, b: seq<byte>)
    requires At(buf, pos, a + b)
    ensures At(buf, pos, a) && At(buf, pos + |a|, b)
  {
    var ab := buf[pos..pos + |a + b|];
    assert buf[pos..pos + |a|] == ab[..|a|];
    assert buf[pos + |a|..pos + |a| + |b|] == ab[|a|..];
  }

  lemma PutU32Digits(v: uint32)
    ensures var r := PutU32(v); BigWord(r[0], r[1], r[2], r[3]) == v
  {
    var v1, v2, v3 := v / 0x100, v / 0x100 / 0x100, v / 0x100 / 0x100 / 0x100;
    assert BigEndian(v3, 1) == BigEndian(v3 / 0x100, 0) + [v3 % 0x100];
    assert BigEndian(v2, 2) == BigEndian(v3, 1) + [v2 % 0x100];
    assert BigEndian(v1, 3) == BigEndian(v2, 2) + [v1 % 0x100];
    assert PutU32(v) == BigEndian(v1, 3) + [v % 0x100];
  }

  lemma U32AtPut(buf: seq<byte>, pos: nat, v: uint32)
    requires At(buf, pos, PutU32(v))
    ensures U32At(buf, pos) == v
  {
    var w := buf[pos..pos + 4];
    assert buf[pos] == w[0] && buf[pos + 1] == w[1] && buf[pos + 2] == w[2] && buf[pos + 3] == w[3];
    PutU32Digits(v);
  }

  lemma PutU32Injective(v: uint32, w: uint32)
    requires PutU32(v) == PutU32(w)
    ensures v == w
  {
    U32AtPut(PutU32(v), 0, v);
    U32AtPut(PutU32(w), 0, w);
  }

  /** The 32 bits of a signed integer, read as an unsigned one, and back. */
  function Unsigned(i: int32): uint32 { if i < 0 then i + TWO_32 else i }

  function Signed(u: uint32): int32 { if u < 0x8000_0000 then u else u - TWO_32 }
}
