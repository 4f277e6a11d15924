/** Byte-order conversions: ShortSwap, LongSwap and FloatSwap, their no-swap
    twins, and COM_Init's choice between them from the host byte order.

    A 16- or 32-bit integer is an `int` in the C range; its little-endian
    layout is `LE16` / `LE32`.  A `float` is held as the four bytes it occupies
    in memory, since FloatSwap moves bytes and does no arithmetic. */
module ByteOrder {
  import opened CTypes

  /** Little-endian bytes of the low 16 bits of `x`. */
  function LE16(x: int): (b: seq<byte>)
    ensures |b| == 2
  {
    [LowByte(x), LowByte(x / 0x100)]
  }

  /** Little-endian bytes of the low 32 bits of `x`. */
  function LE32(x: int): (b: seq<byte>)
    ensures |b| == 4
  {
    [LowByte(x), LowByte(x / 0x100), LowByte(x / 0x1_0000), LowByte(x / 0x100_0000)]
  }

  /** The unsigned value of two little-endian bytes. */
  function Word(b0: int, b1: int): int
  {
    b0 + 0x100 * b1
  }

  /** The unsigned value of four little-endian bytes. */
  function DWord(b0: int, b1: int, b2: int, b3: int): int
  {
    b0 + 0x100 * b1 + 0x1_0000 * b2 + 0x100_0000 * b3
  }

  /** The `short` whose little-endian bytes are `b`. */
  function ShortOfLE(b: seq<byte>): int
    requires |b| == 2
  {
    WrapShort(Word(b[0], b[1]))
  }

  /** The 32-bit `int` whose little-endian bytes are `b`. */
  function LongOfLE(b: seq<byte>): int
    requires |b| == 4
  {
    WrapLong(DWord(b[0], b[1], b[2], b[3]))
  }

  function Reverse4(b: seq<byte>): (r: seq<byte>)
    requires |b| == 4
    ensures |r| == 4
  {
    [b[3], b[2], b[1], b[0]]
  }

  lemma LowByteStep(x: int, k: int)
    ensures LowByte(x + 0x100 * k) == LowByte(x)
    ensures (x + 0x100 * k) / 0x100 == x / 0x100 + k
  {
  }

  /** A 16-bit quantity is determined by its two bytes. */
  lemma ShortBytes(x: int)
    requires IsShort(x)
    ensures x == WrapShort(Word(LE16(x)[0], LE16(x)[1]))
  {
    var lo, hi := x % 0x100, (x / 0x100) % 0x100;
    assert x / 0x100 == (x / 0x100 / 0x100) * 0x100 + hi;
    assert x == (x / 0x100) * 0x100 + lo;
    assert x == (x / 0x100 / 0x100) * 0x1_0000 + hi * 0x100 + lo;
  }

  /** Decoding the little-endian bytes of a `short` gives it back. */
  lemma {:induction false} ShortRoundTrip(x: int)
    requires IsShort(x)
    ensures ShortOfLE(LE16(x)) == x
  {
    ShortBytes(x);
  }

  /** Encoding a decoded `short` gives back the two bytes. */
  lemma {:induction false} ShortBytesRoundTrip(b: seq<byte>)
    requires |b| == 2
    ensures LE16(ShortOfLE(b)) == b
  {
    var v := Word(b[0], b[1]);
    var s := ShortOfLE(b);
    assert s == v || s == v - 0x1_0000;
    if s == v - 0x1_0000 {
      LowByteStep(v, -0x100);
    }
    assert v % 0x100 == b[0];
    assert v / 0x100 == b[1];
  }

  /** Dividing by 0x100 twice is dividing by 0x1_0000. */
  lemma DivTwice(x: int, k: int)
    requires k == 0x100 || k == 0x1_0000
    ensures x / (k * 0x100) == x / k / 0x100
  {
    var q := x / k;
    assert x == k * q + x % k;
    assert q == 0x100 * (q / 0x100) + q % 0x100;
    assert x == (k * 0x100) * (q / 0x100) + (k * (q % 0x100) + x % k);
  }

  /** The four little-endian bytes of `x` add up to `x` modulo 2^32. */
  lemma LongDigits(x: int)
    ensures DWord(LowByte(x), LowByte(x / 0x100), LowByte(x / 0x1_0000), LowByte(x / 0x100_0000))
         == x - 0x1_0000_0000 * (x / 0x1_0000_0000)
  {
    var q1 := x / 0x100;
    DivTwice(x, 0x100);
    var q2 := x / 0x1_0000;
    DivTwice(x, 0x1_0000);
    var q3 := x / 0x100_0000;
    assert x == q1 * 0x100 + x % 0x100;
    assert q1 == q2 * 0x100 + q1 % 0x100;
    assert q2 == q3 * 0x100 + q2 % 0x100;
    assert q3 == (x / 0x1_0000_0000) * 0x100 + q3 % 0x100;
  }

  /** Taking `x` modulo 2^32 and wrapping to the signed range gives back
      an `x` already in that range. */
  lemma WrapDigits(x: int)
    requires IsLong(x)
    ensures WrapLong(x - 0x1_0000_0000 * (x / 0x1_0000_0000)) == x
  {
    if x >= 0 {
      assert x / 0x1_0000_0000 == 0;
    } else {
      assert x / 0x1_0000_0000 == -1;
    }
  }

  lemma LongBytes(x: int)
    requires IsLong(x)
    ensures x == WrapLong(DWord(LE32(x)[0], LE32(x)[1], LE32(x)[2], LE32(x)[3]))
  {
    LongDigits(x);
    WrapDigits(x);
  }

  /** Decoding the little-endian bytes of an `int` gives it back. */
  lemma {:induction false} LongRoundTrip(x: int)
    requires IsLong(x)
    ensures LongOfLE(LE32(x)) == x
  {
    LongBytes(x);
  }

  /** Splitting a low byte off. */
  lemma ByteStep(lo: int, hi: int)
    requires 0 <= lo < 0x100
    ensures (lo + 0x100 * hi) / 0x100 == hi && LowByte(lo + 0x100 * hi) == lo
  {
  }

  /** The bytes of the unsigned value of four bytes are those bytes. */
  lemma DWordBytes(b: seq<byte>)
    requires |b| == 4
    ensures LE32(DWord(b[0], b[1], b[2], b[3])) == b
  {
    var v := DWord(b[0], b[1], b[2], b[3]);
    var w2: int := b[2] as int + 0x100 * b[3] as int;
    var w1: int := b[1] + 0x100 * w2;
    assert v == b[0] + 0x100 * w1;
    ByteStep(b[0], w1);
    ByteStep(b[1], w2);
    ByteStep(b[2], b[3]);
    ByteStep(b[3], 0);
    DivTwice(v, 0x100);
    DivTwice(v, 0x1_0000);
  }

  /** The layout only sees `x` modulo 2^32. */
  lemma LE32Periodic(x: int)
    ensures LE32(x - 0x1_0000_0000) == LE32(x)
  {
    var y := x - 0x1_0000_0000;
    assert y / 0x100 == x / 0x100 - 0x100_0000;
    assert y / 0x1_0000 == x / 0x1_0000 - 0x1_0000;
    assert y / 0x100_0000 == x / 0x100_0000 - 0x100;
    LowByteStep(y, 0x100_0000);
    LowByteStep(y / 0x100, 0x1_0000);
    LowByteStep(y / 0x1_0000, 0x100);
    LowByteStep(y / 0x100_0000, 1);
  }

  /** Encoding a decoded `int` gives back the four bytes. */
  lemma {:induction false} LongBytesRoundTrip(b: seq<byte>)
    requires |b| == 4
    ensures LE32(LongOfLE(b)) == b
  {
    var v := DWord(b[0], b[1], b[2], b[3]);
    DWordBytes(b);
    if LongOfLE(b) != v {
      assert LongOfLE(b) == v - 0x1_0000_0000;
      LE32Periodic(v);
    }
  }

  // ---------------------------------------------------------------------
  // The swap functions

  /** ShortSwap: the low byte becomes the high byte and vice versa. */
  function ShortSwap(l: int): (r: int)
    requires IsShort(l)
    ensures IsShort(r)
    ensures LE16(r) == [LE16(l)[1], LE16(l)[0]]
  {
    var b1 := LowByte(l);
    var b2 := LowByte(l / 0x100);
    ShortBytesRoundTrip([b2, b1]);
    WrapShort(Word(b2, b1))
  }

  /** ShortNoSwap: the value comes back as it is, its two bytes in place. */
  function ShortNoSwap(l: int): (r: int)
    requires IsShort(l)
    ensures IsShort(r)
    ensures LE16(r) == LE16(l)
  {
    l
  }

  /** LongSwap: the four bytes are reversed. */
  function LongSwap(l: int): (r: int)
    requires IsLong(l)
    ensures IsLong(r)
    ensures LE32(r) == Reverse4(LE32(l))
  {
    var b1 := LowByte(l);
    var b2 := LowByte(l / 0x100);
    var b3 := LowByte(l / 0x1_0000);
    var b4 := LowByte(l / 0x100_0000);
    LongBytesRoundTrip([b4, b3, b2, b1]);
    WrapLong(DWord(b4, b3, b2, b1))
  }

  /** LongNoSwap: the value comes back as it is, its four bytes in place. */
  function LongNoSwap(l: int): (r: int)
    requires IsLong(l)
    ensures IsLong(r)
    ensures LE32(r) == LE32(l)
  {
    l
  }

  /** FloatSwap: the float's four memory bytes, reversed. */
  function FloatSwap(f: seq<byte>): (r: seq<byte>)
    requires |f| == 4
    ensures |r| == 4
    ensures forall i :: 0 <= i < 4 ==> r[i] == f[3 - i]
  {
    Reverse4(f)
  }

  /** FloatNoSwap: the float's four memory bytes, in place. */
  function FloatNoSwap(f: seq<byte>): (r: seq<byte>)
    requires |f| == 4
    ensures |r| == 4
    ensures forall i :: 0 <= i < 4 ==> r[i] == f[i]
  {
    f
  }

  /** Swapping twice gives the original `short` back. */
  lemma {:induction false} ShortSwapInvolution(x: int)
    requires IsShort(x)
    ensures ShortSwap(ShortSwap(x)) == x
  {
    var y := ShortSwap(ShortSwap(x));
    assert LE16(y) == LE16(x);
    ShortRoundTrip(x);
    ShortRoundTrip(y);
  }

  /** Swapping twice gives the original `int` back. */
  lemma {:induction false} LongSwapInvolution(x: int)
    requires IsLong(x)
    ensures LongSwap(LongSwap(x)) == x
  {
    var y := LongSwap(LongSwap(x));
    assert LE32(y) == LE32(x);
    LongRoundTrip(x);
    LongRoundTrip(y);
  }

  /** Swapping twice gives the original float bytes back, whatever they encode. */
  lemma FloatSwapInvolution(f: seq<byte>)
    requires |f| == 4
    ensures FloatSwap(FloatSwap(f)) == f
  {
  }

  // ---------------------------------------------------------------------
  // Hosts and COM_Init

  datatype Endian = LittleEndian | BigEndian

  /** The bytes a `short` occupies in the memory of `host`. */
  function ShortInMemory(host: Endian, x: int): (m: seq<byte>)
    ensures |m| == 2
  {
    if host == LittleEndian then LE16(x) else [LE16(x)[1], LE16(x)[0]]
  }

  /** The `short` a host reads from two bytes of memory. */
  function ShortFromMemory(host: Endian, m: seq<byte>): int
    requires |m| == 2
  {
    if host == LittleEndian then ShortOfLE(m) else ShortOfLE([m[1], m[0]])
  }

  /** The 32-bit `int` a host reads from four bytes of memory. */
  function LongFromMemory(host: Endian, m: seq<byte>): int
    requires |m| == 4
  {
    if host == LittleEndian then LongOfLE(m) else LongOfLE(Reverse4(m))
  }

  /** The bytes a 32-bit `int` occupies in the memory of `host`. */
  function LongInMemory(host: Endian, x: int): (m: seq<byte>)
    ensures |m| == 4
  {
    if host == LittleEndian then LE32(x) else Reverse4(LE32(x))
  }

  /** The IEEE bit pattern, least significant byte first, of the float whose
      memory bytes on `host` are `m`. */
  function FloatBits(host: Endian, m: seq<byte>): (bits: seq<byte>)
    requires |m| == 4
    ensures |bits| == 4
  {
    if host == LittleEndian then m else Reverse4(m)
  }

  datatype Swapper = Swap | NoSwap

  /** The function pointers COM_Init assigns. */
  datatype SwapTable = SwapTable(
    bigendian: bool,
    bigShort: Swapper, littleShort: Swapper,
    bigLong: Swapper, littleLong: Swapper,
    bigFloat: Swapper, littleFloat: Swapper)

  function ApplyShort(s: Swapper, x: int): int
    requires IsShort(x)
  {
    if s == Swap then ShortSwap(x) else ShortNoSwap(x)
  }

  function ApplyLong(s: Swapper, x: int): int
    requires IsLong(x)
  {
    if s == Swap then LongSwap(x) else LongNoSwap(x)
  }

  function ApplyFloat(s: Swapper, f: seq<byte>): seq<byte>
    requires |f| == 4
  {
    if s == Swap then FloatSwap(f) else FloatNoSwap(f)
  }

  /** COM_Init stores the `unsigned short` 1 and looks at its first memory
      byte: 1 means little-endian, and the Little* functions do not swap. */
  function ComInit(host: Endian): (t: SwapTable)
    ensures t.bigendian == (host == BigEndian)
    ensures t.littleLong == (if host == LittleEndian then NoSwap else Swap)
    ensures t.bigLong != t.littleLong && t.bigShort != t.littleShort && t.bigFloat != t.littleFloat
  {
    if ShortInMemory(host, 1)[0] == 1 then
      SwapTable(false, Swap, NoSwap, Swap, NoSwap, Swap, NoSwap)
    else
      SwapTable(true, NoSwap, Swap, NoSwap, Swap, NoSwap, Swap)
  }

  /** On either host, LittleShort of two little-endian bytes loaded from a
      file is their value, and BigShort of two big-endian bytes is theirs. */
  lemma {:induction false} ShortConversionsDecode(host: Endian, m: seq<byte>)
    requires |m| == 2
    ensures IsShort(ShortFromMemory(host, m))
    ensures ApplyShort(ComInit(host).littleShort, ShortFromMemory(host, m)) == ShortOfLE(m)
    ensures ApplyShort(ComInit(host).bigShort, ShortFromMemory(host, m)) == ShortOfLE([m[1], m[0]])
  {
    var t := ComInit(host);
    var x := ShortFromMemory(host, m);
    var rev := [m[1], m[0]];
    ShortBytesRoundTrip(m);
    ShortBytesRoundTrip(rev);
    if host == LittleEndian {
      assert LE16(ShortSwap(x)) == rev;
      ShortRoundTrip(ShortSwap(x));
    } else {
      assert LE16(ShortSwap(x)) == m;
      ShortRoundTrip(ShortSwap(x));
    }
  }

  /** On either host, LittleLong of four little-endian bytes loaded from a
      file is their value, and BigLong of four big-endian bytes is theirs. */
  lemma {:induction false} LongConversionsDecode(host: Endian, m: seq<byte>)
    requires |m| == 4
    ensures IsLong(LongFromMemory(host, m))
    ensures ApplyLong(ComInit(host).littleLong, LongFromMemory(host, m)) == LongOfLE(m)
    ensures ApplyLong(ComInit(host).bigLong, LongFromMemory(host, m)) == LongOfLE(Reverse4(m))
  {
    var x := LongFromMemory(host, m);
    LongBytesRoundTrip(m);
    LongBytesRoundTrip(Reverse4(m));
    assert Reverse4(Reverse4(m)) == m;
    LongRoundTrip(LongSwap(x));
  }

  /** On either host, LittleFloat turns a float loaded from four
      little-endian file bytes into the float with exactly those bits, and
      BigFloat does the same for big-endian bytes. */
  lemma FloatConversionsDecode(host: Endian, m: seq<byte>)
    requires |m| == 4
    ensures FloatBits(host, ApplyFloat(ComInit(host).littleFloat, m)) == m
    ensures FloatBits(host, ApplyFloat(ComInit(host).bigFloat, m)) == Reverse4(m)
  {
  }

  /** Storing a value and converting it with the matching pair gives the
      same memory bytes on both hosts: LittleLong writes little-endian. */
  lemma {:induction false} LittleLongEncodes(host: Endian, x: int)
    requires IsLong(x)
    ensures IsLong(ApplyLong(ComInit(host).littleLong, x))
    ensures LongInMemory(host, ApplyLong(ComInit(host).littleLong, x)) == LE32(x)
  {
    if host == BigEndian {
      assert Reverse4(Reverse4(LE32(x))) == LE32(x);
    }
  }
}
