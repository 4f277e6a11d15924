/** C data types the engine relies on: bytes, the two's-complement widths of
    `char`, `short` and `int`, and NUL-terminated strings.  Integers are
    unbounded here; every narrowing conversion of the C code is written out. */
module CTypes {

  datatype Option<T> = None | Some(value: T)

  /** An unsigned 8-bit value (`byte`, `unsigned char`). */
  type byte = b: int | 0 <= b < 256

  const SHORT_MIN: int := -0x8000
  const SHORT_MAX: int := 0x7FFF
  const LONG_MIN: int := -0x8000_0000
  const LONG_MAX: int := 0x7FFF_FFFF

  predicate IsShort(x: int) { SHORT_MIN <= x <= SHORT_MAX }
  predicate IsLong(x: int) { LONG_MIN <= x <= LONG_MAX }

  /** The low byte of `x`, i.e. `x & 0xff` on a two's-complement value. */
  function LowByte(x: int): (b: byte)
    ensures (x - b) % 256 == 0
  {
    x % 256
  }

  /** Conversion of a `byte` to `signed char`. */
  function SignedChar(b: byte): (c: int)
    ensures -128 <= c <= 127
    ensures (c - b) % 256 == 0
  {
    if b < 128 then b else b - 256
  }

  /** Conversion of an integer to `short` (two's-complement wrap-around). */
  function WrapShort(x: int): (s: int)
    ensures IsShort(s)
    ensures (s - x) % 0x1_0000 == 0
  {
    var m := x % 0x1_0000;
    if m <= SHORT_MAX then m else m - 0x1_0000
  }

  /** Conversion of an integer to 32-bit `int` (two's-complement wrap-around). */
  function WrapLong(x: int): (l: int)
    ensures IsLong(l)
    ensures (l - x) % 0x1_0000_0000 == 0
  {
    var m := x % 0x1_0000_0000;
    if m <= LONG_MAX then m else m - 0x1_0000_0000
  }

  /** `unsigned int` left shift by one bit: the top bit falls off. */
  function ShiftLeftUnsigned(x: int): (r: int)
    requires 0 <= x < 0x1_0000_0000
    ensures 0 <= r < 0x1_0000_0000
    ensures x < 0x8000_0000 ==> r == 2 * x
  {
    (2 * x) % 0x1_0000_0000
  }

  /** A C string is the byte content before its terminating NUL. */
  predicate NoNul(s: seq<byte>)
  {
    forall i :: 0 <= i < |s| ==> s[i] != 0
  }

  /** `strlen` of a NUL-terminated buffer: the index of the first 0. */
  function StrLen(s: seq<byte>): (n: nat)
    requires 0 in s
    ensures n < |s| && s[n] == 0 && NoNul(s[..n])
  {
    if s[0] == 0 then 0 else 1 + StrLen(s[1..])
  }

  /** Bytes before the first NUL, or all of `s` when it holds none. */
  function UntilNul(s: seq<byte>): (r: seq<byte>)
    ensures NoNul(r)
    ensures |r| <= |s| && r == s[..|r|]
    ensures |r| < |s| ==> s[|r|] == 0
  {
    if s == [] || s[0] == 0 then [] else [s[0]] + UntilNul(s[1..])
  }

  /** A C string held as text: every character is a non-NUL byte value. */
  predicate IsCString(s: string)
  {
    forall i :: 0 <= i < |s| ==> 0 < s[i] as int < 256
  }

  /** The text of a byte string, one character per byte. */
  function Chars(b: seq<byte>): (s: string)
    ensures |s| == |b|
    ensures forall i :: 0 <= i < |b| ==> s[i] as int == b[i]
  {
    if b == [] then [] else [b[0] as char] + Chars(b[1..])
  }

  /** The bytes of a text whose characters are byte values. */
  function Bytes(s: string): (b: seq<byte>)
    requires forall i :: 0 <= i < |s| ==> s[i] as int < 256
    ensures |b| == |s|
    ensures forall i :: 0 <= i < |s| ==> b[i] == s[i] as int
  {
    if s == [] then [] else [s[0] as int] + Bytes(s[1..])
  }
}
