/** The part of Rust's `core::hash` protocol that a derived `Hash` on `IString`
    reaches: the calls made on the `Hasher` and the bytes those calls stream
    into it under the default `Hasher` methods. The hashing algorithm itself is
    not modelled; two values that stream the same bytes hash alike under every
    streaming hasher. */
module RustHash {

  newtype byte = x: int | 0 <= x < 0x100

  /** Rust's `isize` on a 64-bit target. */
  newtype isize = x: int | -0x8000_0000_0000_0000 <= x < 0x8000_0000_0000_0000

  /** One call on a `Hasher`: `write_isize(d)` or `write_str(s)`. */
  datatype HasherCall = WriteIsize(d: isize) | WriteStr(s: string)

  /** The UTF-8 byte sequence length of a scalar value. */
  function Utf8Width(c: char): (k: nat)
    ensures 1 <= k <= 4
  {
    var n := c as int;
    if n < 0x80 then 1
    else if n < 0x800 then 2
    else if n < 0x1_0000 then 3
    else 4
  }

  /** The UTF-8 encoding of one scalar value (RFC 3629, section 3). */
  function EncodeChar(c: char): (r: seq<byte>)
    ensures |r| == Utf8Width(c)
  {
    var n := c as int;
    if n < 0x80 then
      [n as byte]
    else if n < 0x800 then
      [(0xC0 + n / 0x40) as byte, (0x80 + n % 0x40) as byte]
    else if n < 0x1_0000 then
      [(0xE0 + n / 0x1000) as byte, (0x80 + n / 0x40 % 0x40) as byte, (0x80 + n % 0x40) as byte]
    else
      [(0xF0 + n / 0x4_0000) as byte, (0x80 + n / 0x1000 % 0x40) as byte,
       (0x80 + n / 0x40 % 0x40) as byte, (0x80 + n % 0x40) as byte]
  }

  /** `str::as_bytes`: the UTF-8 encoding of a whole string. */
  function Utf8(s: string): (r: seq<byte>)
    ensures |r| >= |s|
  {
    if s == [] then [] else EncodeChar(s[0]) + Utf8(s[1..])
  }

  /** The width a UTF-8 leading byte announces. */
  function LeadWidth(b: byte): nat
  {
    if b < 0x80 then 1 else if b < 0xE0 then 2 else if b < 0xF0 then 3 else 4
  }

  /** The scalar value a well-formed UTF-8 sequence of one character denotes. */
  function CodePoint(b: seq<byte>): int
    requires 1 <= |b| <= 4
  {
    if |b| == 1 then b[0] as int
    else if |b| == 2 then (b[0] as int - 0xC0) * 0x40 + (b[1] as int - 0x80)
    else if |b| == 3 then
      (b[0] as int - 0xE0) * 0x1000 + (b[1] as int - 0x80) * 0x40 + (b[2] as int - 0x80)
    else
      (b[0] as int - 0xF0) * 0x4_0000 + (b[1] as int - 0x80) * 0x1000
      + (b[2] as int - 0x80) * 0x40 + (b[3] as int - 0x80)
  }

  /** The leading byte of a character's encoding announces its width, and the
      encoding denotes the character's scalar value. */
  lemma EncodeCharDecodes(c: char)
    ensures LeadWidth(EncodeChar(c)[0]) == Utf8Width(c)
    ensures CodePoint(EncodeChar(c)) == c as int
  {
    var n := c as int;
    if n >= 0x1_0000 {
      assert n == n / 0x4_0000 * 0x4_0000 + n / 0x1000 % 0x40 * 0x1000 + n / 0x40 % 0x40 * 0x40 + n % 0x40;
    } else if n >= 0x800 {
      assert n == n / 0x1000 * 0x1000 + n / 0x40 % 0x40 * 0x40 + n % 0x40;
    }
  }

  /** Encodings of characters form a prefix code: a stream that starts with two
      character encodings starts with the same character. */
  lemma EncodeCharPrefix(c1: char, c2: char, rest1: seq<byte>, rest2: seq<byte>)
    requires EncodeChar(c1) + rest1 == EncodeChar(c2) + rest2
    ensures c1 == c2 && rest1 == rest2
  {
    var e1, e2 := EncodeChar(c1), EncodeChar(c2);
    EncodeCharDecodes(c1);
    EncodeCharDecodes(c2);
    assert e1[0] == (e1 + rest1)[0] == (e2 + rest2)[0] == e2[0];
    var k := |e1|;
    assert e1 == (e1 + rest1)[..k] == (e2 + rest2)[..k] == e2;
    assert c1 as int == c2 as int;
    assert rest1 == (e1 + rest1)[k..] == (e2 + rest2)[k..] == rest2;
  }

  /** UTF-8 is injective on strings, so `as_bytes` loses nothing. */
  lemma {:induction false} Utf8Injective(s1: string, s2: string)
    requires Utf8(s1) == Utf8(s2)
    ensures s1 == s2
  {
    if s1 == [] || s2 == [] {
      assert |Utf8(s1)| == 0 || |Utf8(s2)| == 0;
    } else {
      EncodeCharPrefix(s1[0], s2[0], Utf8(s1[1..]), Utf8(s2[1..]));
      Utf8Injective(s1[1..], s2[1..]);
      assert s1 == [s1[0]] + s1[1..] && s2 == [s2[0]] + s2[1..];
    }
  }

  /** The `k` low bytes of `u`, least significant first. */
  function LeBytes(u: nat, k: nat): (r: seq<byte>)
    ensures |r| == k
  {
    if k == 0 then [] else [(u % 0x100) as byte] + LeBytes(u / 0x100, k - 1)
  }

  /** `write_isize(d)`: the eight bytes of `d` in two's complement, on a
      little-endian target (`d.to_ne_bytes()`). */
  function IsizeBytes(d: isize): (r: seq<byte>)
    ensures |r| == 8
  {
    var u := if d < 0 then d as int + 0x1_0000_0000_0000_0000 else d as int;
    LeBytes(u, 8)
  }

  /** What one call streams into the hasher. `write_str` is the default
      `Hasher::write_str`: the string's bytes, then `write_u8(0xff)`. */
  function CallBytes(call: HasherCall): seq<byte>
  {
    match call
    case WriteIsize(d) => IsizeBytes(d)
    case WriteStr(s) => Utf8(s) + [0xFF]
  }

  /** The bytes a sequence of calls streams into the hasher, in order. */
  function StreamBytes(calls: seq<HasherCall>): seq<byte>
  {
    if calls == [] then [] else CallBytes(calls[0]) + StreamBytes(calls[1..])
  }

  /** A single call streams exactly its own bytes. */
  lemma StreamOfOne(call: HasherCall)
    ensures StreamBytes([call]) == CallBytes(call)
  {
  }

  /** Two `write_str` calls stream the same bytes only for the same string. */
  lemma WriteStrInjective(s1: string, s2: string)
    requires CallBytes(WriteStr(s1)) == CallBytes(WriteStr(s2))
    ensures s1 == s2
  {
    var b1, b2 := Utf8(s1) + [0xFF], Utf8(s2) + [0xFF];
    assert Utf8(s1) == b1[..|b1| - 1] == b2[..|b2| - 1] == Utf8(s2);
    Utf8Injective(s1, s2);
  }
}
