/** Message wire encoding: the MSG_Write* functions, which append to a
    `sizebuf_t`, and the MSG_Read* functions, which read through a `qmsg_t`
    cursor with its sticky `badread` flag.

    Integers go out low byte first in 1, 2 or 4 bytes; strings go out as
    their bytes and one 0.  A float is carried as its IEEE bit pattern (four
    bytes, least significant first); its arithmetic is not modelled. */
module Message {
  import opened CTypes
  import opened ByteOrder
  import opened SizeBuffer

  // ---------------------------------------------------------------------
  // Byte layout of each writer

  /** MSG_WriteChar and MSG_WriteByte store `c` into one byte. */
  function ByteLayout(c: int): (b: seq<byte>)
    ensures |b| == 1
  {
    [LowByte(c)]
  }

  /** MSG_WriteString: the string and a 0, or a lone 0 for a null pointer. */
  function StringLayout(s: Option<seq<byte>>): (b: seq<byte>)
    requires s.Some? ==> NoNul(s.value)
    ensures b != [] && b[|b| - 1] == 0 && NoNul(b[..|b| - 1])
  {
    match s
    case None => [0]
    case Some(t) => t + [0]
  }

  /** MSG_WriteFloat: the float's memory bytes on `host` are read as an
      `int`, converted with LittleLong and written out from memory. */
  function FloatLayout(host: Endian, m: seq<byte>): (b: seq<byte>)
    requires |m| == 4
    ensures |b| == 4
  {
    LongConversionsDecode(host, m);
    var l := LongFromMemory(host, m);
    LongInMemory(host, ApplyLong(ComInit(host).littleLong, l))
  }

  /** On every host MSG_WriteFloat puts the float's bit pattern on the wire
      least significant byte first. */
  lemma {:induction false} FloatLayoutIsBits(host: Endian, m: seq<byte>)
    requires |m| == 4
    ensures FloatLayout(host, m) == FloatBits(host, m)
  {
    LongBytesRoundTrip(m);
    if host == LittleEndian {
      assert FloatLayout(host, m) == LE32(LongOfLE(m));
    } else {
      var x := LongOfLE(Reverse4(m));
      LongBytesRoundTrip(Reverse4(m));
      assert Reverse4(LE32(x)) == m;
      assert FloatLayout(host, m) == Reverse4(LE32(LongSwap(x)));
    }
  }

  // ---------------------------------------------------------------------
  // Writers

  /** Append `bytes` through SZ_GetSpace, the way every MSG_Write* does. */
  method Emit(sb: SizeBuf, bytes: seq<byte>) returns (g: Grant)
    requires sb.Valid()
    modifies sb`cursize, sb`overflowed, sb.data
    ensures sb.Valid()
    ensures g == GetSpaceRule(old(sb.cursize), sb.maxsize, sb.allowoverflow, |bytes|)
    ensures g.Granted? ==> sb.Contents() == (if g.overflow then bytes else old(sb.Contents()) + bytes)
    ensures g.Granted? ==> sb.overflowed == (old(sb.overflowed) || g.overflow)
    ensures g.Fatal? ==> sb.Contents() == old(sb.Contents()) && sb.overflowed == old(sb.overflowed)
  {
    g := sb.Write(bytes);
  }

  method WriteChar(sb: SizeBuf, c: int) returns (g: Grant)
    requires sb.Valid()
    modifies sb`cursize, sb`overflowed, sb.data
    ensures sb.Valid()
    ensures g == GetSpaceRule(old(sb.cursize), sb.maxsize, sb.allowoverflow, 1)
    ensures g.Granted? ==> sb.Contents() == (if g.overflow then [] else old(sb.Contents())) + ByteLayout(c)
    ensures g.Granted? ==> sb.overflowed == (old(sb.overflowed) || g.overflow)
    ensures g.Fatal? ==> sb.Contents() == old(sb.Contents()) && sb.overflowed == old(sb.overflowed)
  {
    g := Emit(sb, ByteLayout(c));
  }

  method WriteByte(sb: SizeBuf, c: int) returns (g: Grant)
    requires sb.Valid()
    modifies sb`cursize, sb`overflowed, sb.data
    ensures sb.Valid()
    ensures g == GetSpaceRule(old(sb.cursize), sb.maxsize, sb.allowoverflow, 1)
    ensures g.Granted? ==> sb.Contents() == (if g.overflow then [] else old(sb.Contents())) + ByteLayout(c)
    ensures g.Granted? ==> sb.overflowed == (old(sb.overflowed) || g.overflow)
    ensures g.Fatal? ==> sb.Contents() == old(sb.Contents()) && sb.overflowed == old(sb.overflowed)
  {
    g := Emit(sb, ByteLayout(c));
  }

  method WriteShort(sb: SizeBuf, c: int) returns (g: Grant)
    requires sb.Valid()
    modifies sb`cursize, sb`overflowed, sb.data
    ensures sb.Valid()
    ensures g == GetSpaceRule(old(sb.cursize), sb.maxsize, sb.allowoverflow, 2)
    ensures g.Granted? ==> sb.Contents() == (if g.overflow then [] else old(sb.Contents())) + LE16(c)
    ensures g.Granted? ==> sb.overflowed == (old(sb.overflowed) || g.overflow)
    ensures g.Fatal? ==> sb.Contents() == old(sb.Contents()) && sb.overflowed == old(sb.overflowed)
  {
    g := Emit(sb, LE16(c));
  }

  method WriteLong(sb: SizeBuf, c: int) returns (g: Grant)
    requires sb.Valid()
    modifies sb`cursize, sb`overflowed, sb.data
    ensures sb.Valid()
    ensures g == GetSpaceRule(old(sb.cursize), sb.maxsize, sb.allowoverflow, 4)
    ensures g.Granted? ==> sb.Contents() == (if g.overflow then [] else old(sb.Contents())) + LE32(c)
    ensures g.Granted? ==> sb.overflowed == (old(sb.overflowed) || g.overflow)
    ensures g.Fatal? ==> sb.Contents() == old(sb.Contents()) && sb.overflowed == old(sb.overflowed)
  {
    g := Emit(sb, LE32(c));
  }

  /** MSG_WriteFloat, with the float given by its memory bytes on `host`. */
  method WriteFloat(sb: SizeBuf, host: Endian, f: seq<byte>) returns (g: Grant)
    requires sb.Valid() && |f| == 4
    modifies sb`cursize, sb`overflowed, sb.data
    ensures sb.Valid()
    ensures g == GetSpaceRule(old(sb.cursize), sb.maxsize, sb.allowoverflow, 4)
    ensures g.Granted? ==> sb.Contents() == (if g.overflow then [] else old(sb.Contents())) + FloatBits(host, f)
    ensures g.Granted? ==> sb.overflowed == (old(sb.overflowed) || g.overflow)
    ensures g.Fatal? ==> sb.Contents() == old(sb.Contents()) && sb.overflowed == old(sb.overflowed)
  {
    FloatLayoutIsBits(host, f);
    g := Emit(sb, FloatLayout(host, f));
  }

  /** MSG_WriteString; `None` is the null pointer. */
  method WriteString(sb: SizeBuf, s: Option<seq<byte>>) returns (g: Grant)
    requires sb.Valid()
    requires s.Some? ==> NoNul(s.value)
    modifies sb`cursize, sb`overflowed, sb.data
    ensures sb.Valid()
    ensures g == GetSpaceRule(old(sb.cursize), sb.maxsize, sb.allowoverflow, |StringLayout(s)|)
    ensures g.Granted? ==> sb.Contents() == (if g.overflow then [] else old(sb.Contents())) + StringLayout(s)
    ensures g.Granted? ==> sb.overflowed == (old(sb.overflowed) || g.overflow)
    ensures g.Fatal? ==> sb.Contents() == old(sb.Contents()) && sb.overflowed == old(sb.overflowed)
  {
    g := Emit(sb, StringLayout(s));
  }

  // ---------------------------------------------------------------------
  // Readers, as functions of the committed bytes and the cursor

  /** The `qmsg_t` cursor: `readcount` and the sticky `badread`. */
  datatype Cursor = Cursor(readcount: nat, badread: bool)

  /** MSG_BeginReading. */
  const Start: Cursor := Cursor(0, false)

  /** The bit pattern of the float -1.0, which MSG_ReadFloat returns on failure. */
  const MinusOneBits: seq<byte> := [0x00, 0x00, 0x80, 0xBF]

  function ReadCharF(buf: seq<byte>, c: Cursor): (int, Cursor)
  {
    if c.readcount + 1 <= |buf| then (SignedChar(buf[c.readcount]), c.(readcount := c.readcount + 1))
    else (-1, c.(badread := true))
  }

  function ReadByteF(buf: seq<byte>, c: Cursor): (int, Cursor)
  {
    if c.readcount + 1 <= |buf| then (buf[c.readcount] as int, c.(readcount := c.readcount + 1))
    else (-1, c.(badread := true))
  }

  function PeekByteF(buf: seq<byte>, c: Cursor): (int, Cursor)
  {
    if c.readcount + 1 <= |buf| then (buf[c.readcount] as int, c)
    else (-1, c.(badread := true))
  }

  function ReadShortF(buf: seq<byte>, c: Cursor): (int, Cursor)
  {
    if c.readcount + 2 <= |buf| then
      (ShortOfLE(buf[c.readcount..c.readcount + 2]), c.(readcount := c.readcount + 2))
    else (-1, Cursor(|buf|, true))
  }

  function ReadLongF(buf: seq<byte>, c: Cursor): (int, Cursor)
  {
    if c.readcount + 4 <= |buf| then
      (LongOfLE(buf[c.readcount..c.readcount + 4]), c.(readcount := c.readcount + 4))
    else (-1, Cursor(|buf|, true))
  }

  /** MSG_ReadFloat on `host`: the four bytes are placed in memory, read as an
      `int`, converted with LittleLong and the result read as a float.  The
      value is the float's bit pattern, least significant byte first. */
  function ReadFloatF(host: Endian, buf: seq<byte>, c: Cursor): (seq<byte>, Cursor)
  {
    if c.readcount + 4 <= |buf| then
      var m := buf[c.readcount..c.readcount + 4];
      LongConversionsDecode(host, m);
      var l := ApplyLong(ComInit(host).littleLong, LongFromMemory(host, m));
      (FloatBits(host, LongInMemory(host, l)), c.(readcount := c.readcount + 4))
    else (MinusOneBits, Cursor(|buf|, true))
  }

  /** strnlen from `k`: the index of the first 0 at or after `k`, or the
      end of the data when there is none. */
  function NulFrom(buf: seq<byte>, k: nat): (e: nat)
    requires k <= |buf|
    ensures k <= e <= |buf|
    decreases |buf| - k
  {
    if k == |buf| || buf[k] == 0 then k else NulFrom(buf, k + 1)
  }

  /** NulFrom stops at the first 0: the bytes before it are not 0. */
  lemma {:induction false} NulFromStops(buf: seq<byte>, k: nat)
    requires k <= |buf|
    ensures forall j :: k <= j < NulFrom(buf, k) ==> buf[j] != 0
    ensures NulFrom(buf, k) < |buf| ==> buf[NulFrom(buf, k)] == 0
    decreases |buf| - k
  {
    if k < |buf| && buf[k] != 0 {
      NulFromStops(buf, k + 1);
    }
  }

  /** The contract of NulFrom pins it down. */
  lemma NulFromUnique(buf: seq<byte>, k: nat, e: nat)
    requires k <= e <= |buf|
    requires forall j :: k <= j < e ==> buf[j] != 0
    requires e < |buf| ==> buf[e] == 0
    ensures NulFrom(buf, k) == e
  {
    NulFromStops(buf, k);
  }

  /** MSG_ReadString.  With no 0 before the end the bytes that are there are
      returned (from the `badread_string` scratch buffer), `badread` is set
      and `readcount` does not move. */
  function ReadStringF(buf: seq<byte>, c: Cursor): (seq<byte>, Cursor)
  {
    if c.badread || c.readcount + 1 > |buf| then ([], c.(badread := true))
    else
      var e := NulFrom(buf, c.readcount);
      if e == |buf| then (buf[c.readcount..], c.(badread := true))
      else (buf[c.readcount..e], c.(readcount := e + 1))
  }

  /** On every host MSG_ReadFloat returns the float whose bit pattern is the
      four wire bytes, least significant first. */
  lemma {:induction false} ReadFloatIsWireBits(host: Endian, buf: seq<byte>, c: Cursor)
    requires c.readcount + 4 <= |buf|
    ensures ReadFloatF(host, buf, c).0 == buf[c.readcount..c.readcount + 4]
  {
    var m := buf[c.readcount..c.readcount + 4];
    LongConversionsDecode(host, m);
    var l := ApplyLong(ComInit(host).littleLong, LongFromMemory(host, m));
    assert l == LongOfLE(m);
    LongBytesRoundTrip(m);
    assert ReadFloatF(host, buf, c).0 == FloatBits(host, LongInMemory(host, l));
  }

  // ---------------------------------------------------------------------
  // Round trips: what a writer puts on the wire, the matching reader
  // returns, and it moves the cursor past exactly those bytes.

  lemma {:induction false} ByteRoundTrip(pre: seq<byte>, x: int, post: seq<byte>, bad: bool)
    requires 0 <= x <= 255
    ensures ReadByteF(pre + ByteLayout(x) + post, Cursor(|pre|, bad)) == (x, Cursor(|pre| + 1, bad))
  {
    assert (pre + ByteLayout(x) + post)[|pre|] == x;
  }

  lemma {:induction false} CharRoundTrip(pre: seq<byte>, x: int, post: seq<byte>, bad: bool)
    requires -128 <= x <= 127
    ensures ReadCharF(pre + ByteLayout(x) + post, Cursor(|pre|, bad)) == (x, Cursor(|pre| + 1, bad))
  {
    assert (pre + ByteLayout(x) + post)[|pre|] == LowByte(x);
  }

  lemma {:induction false} ShortWireRoundTrip(pre: seq<byte>, x: int, post: seq<byte>, bad: bool)
    requires IsShort(x)
    ensures ReadShortF(pre + LE16(x) + post, Cursor(|pre|, bad)) == (x, Cursor(|pre| + 2, bad))
  {
    var buf := pre + LE16(x) + post;
    assert buf[|pre|..|pre| + 2] == LE16(x);
    ShortRoundTrip(x);
  }

  lemma {:induction false} LongWireRoundTrip(pre: seq<byte>, x: int, post: seq<byte>, bad: bool)
    requires IsLong(x)
    ensures ReadLongF(pre + LE32(x) + post, Cursor(|pre|, bad)) == (x, Cursor(|pre| + 4, bad))
  {
    var buf := pre + LE32(x) + post;
    assert buf[|pre|..|pre| + 4] == LE32(x);
    LongRoundTrip(x);
  }

  /** A float written on one host reads back bit for bit on any host. */
  lemma {:induction false} FloatWireRoundTrip(writer: Endian, reader: Endian, pre: seq<byte>, f: seq<byte>, post: seq<byte>, bad: bool)
    requires |f| == 4
    ensures ReadFloatF(reader, pre + FloatLayout(writer, f) + post, Cursor(|pre|, bad))
         == (FloatBits(writer, f), Cursor(|pre| + 4, bad))
  {
    var buf := pre + FloatLayout(writer, f) + post;
    FloatLayoutIsBits(writer, f);
    assert buf[|pre|..|pre| + 4] == FloatBits(writer, f);
    ReadFloatIsWireBits(reader, buf, Cursor(|pre|, bad));
  }

  lemma {:induction false} StringRoundTrip(pre: seq<byte>, s: seq<byte>, post: seq<byte>)
    requires NoNul(s)
    ensures ReadStringF(pre + StringLayout(Some(s)) + post, Cursor(|pre|, false))
         == (s, Cursor(|pre| + |s| + 1, false))
  {
    var buf := pre + StringLayout(Some(s)) + post;
    forall j | |pre| <= j < |pre| + |s| ensures buf[j] != 0 {
      assert buf[j] == s[j - |pre|];
    }
    NulFromUnique(buf, |pre|, |pre| + |s|);
    assert buf[|pre|..|pre| + |s|] == s;
  }

  /** A null string pointer reads back as the empty string. */
  lemma {:induction false} NullStringRoundTrip(pre: seq<byte>, post: seq<byte>)
    ensures ReadStringF(pre + StringLayout(None) + post, Cursor(|pre|, false)) == ([], Cursor(|pre| + 1, false))
  {
    var buf := pre + StringLayout(None) + post;
    assert buf[|pre|] == 0;
    assert buf[|pre|..|pre|] == [];
  }

  // ---------------------------------------------------------------------
  // Messages of several fields

  /** One value written by a MSG_Write* call. */
  datatype Field =
    | CharField(c: int) | ByteField(b: int) | ShortField(s: int) | LongField(l: int)
    | FloatField(bits: seq<byte>) | StringField(str: seq<byte>)

  predicate FieldInRange(f: Field)
  {
    match f
    case CharField(c) => -128 <= c <= 127
    case ByteField(b) => 0 <= b <= 255
    case ShortField(s) => IsShort(s)
    case LongField(l) => IsLong(l)
    case FloatField(bits) => |bits| == 4
    case StringField(str) => NoNul(str)
  }

  /** The bytes a field occupies on the wire; a string is followed by its
      terminator, as StringLayout writes it. */
  function FieldBytes(f: Field): seq<byte>
  {
    match f
    case CharField(c) => ByteLayout(c)
    case ByteField(b) => ByteLayout(b)
    case ShortField(s) => LE16(s)
    case LongField(l) => LE32(l)
    case FloatField(bits) => bits
    case StringField(str) => str + [0]
  }

  /** Every field of `fs` is in range. */
  predicate AllInRange(fs: seq<Field>)
  {
    forall f | f in fs :: FieldInRange(f)
  }

  /** The fields written in order with `enc`. */
  function EncodeWith(enc: Field -> seq<byte>, fs: seq<Field>): seq<byte>
    decreases |fs|
  {
    if fs == [] then [] else enc(fs[0]) + EncodeWith(enc, fs[1..])
  }

  /** A message of fields, as the MSG_Write* calls put it on the wire. */
  function Encode(fs: seq<Field>): seq<byte>
  {
    EncodeWith(FieldBytes, fs)
  }

  /** Read back one field of the same kind as `f`. */
  function ReadField(host: Endian, buf: seq<byte>, c: Cursor, f: Field): (Field, Cursor)
  {
    match f
    case CharField(_) => var r := ReadCharF(buf, c); (CharField(r.0), r.1)
    case ByteField(_) => var r := ReadByteF(buf, c); (ByteField(r.0), r.1)
    case ShortField(_) => var r := ReadShortF(buf, c); (ShortField(r.0), r.1)
    case LongField(_) => var r := ReadLongF(buf, c); (LongField(r.0), r.1)
    case FloatField(_) => var r := ReadFloatF(host, buf, c); (FloatField(r.0), r.1)
    case StringField(_) => var r := ReadStringF(buf, c); (StringField(r.0), r.1)
  }

  /** ReadField on `host`, as a value. */
  function Reader(host: Endian): (seq<byte>, Cursor, Field) -> (Field, Cursor)
  {
    (buf: seq<byte>, c: Cursor, f: Field) => ReadField(host, buf, c, f)
  }

  /** Read back fields of the kinds of `shape`, in order, with `rd`. */
  function ReadFieldsWith(rd: (seq<byte>, Cursor, Field) -> (Field, Cursor), buf: seq<byte>, c: Cursor,
                          shape: seq<Field>): (seq<Field>, Cursor)
    decreases |shape|
  {
    if shape == [] then ([], c)
    else
      var first := rd(buf, c, shape[0]);
      var rest := ReadFieldsWith(rd, buf, first.1, shape[1..]);
      ([first.0] + rest.0, rest.1)
  }

  /** Read back fields of the kinds of `shape`, in order. */
  function ReadFields(host: Endian, buf: seq<byte>, c: Cursor, shape: seq<Field>): (seq<Field>, Cursor)
  {
    ReadFieldsWith(Reader(host), buf, c, shape)
  }

  lemma {:induction false} FieldRoundTrip(host: Endian, pre: seq<byte>, f: Field, post: seq<byte>)
    requires FieldInRange(f)
    ensures ReadField(host, pre + FieldBytes(f) + post, Cursor(|pre|, false), f)
         == (f, Cursor(|pre| + |FieldBytes(f)|, false))
  {
    match f {
      case CharField(x) => CharFieldRoundTrip(host, pre, f, post);
      case ByteField(x) => ByteFieldRoundTrip(host, pre, f, post);
      case ShortField(x) => ShortFieldRoundTrip(host, pre, f, post);
      case LongField(x) => LongFieldRoundTrip(host, pre, f, post);
      case FloatField(bits) => FloatFieldRoundTrip(host, pre, f, post);
      case StringField(str) => StringFieldRoundTrip(host, pre, f, post);
    }
  }

  lemma CharFieldRoundTrip(host: Endian, pre: seq<byte>, f: Field, post: seq<byte>)
    requires f.CharField? && FieldInRange(f)
    ensures ReadField(host, pre + FieldBytes(f) + post, Cursor(|pre|, false), f)
         == (f, Cursor(|pre| + |FieldBytes(f)|, false))
  {
    CharRoundTrip(pre, f.c, post, false);
  }

  lemma ByteFieldRoundTrip(host: Endian, pre: seq<byte>, f: Field, post: seq<byte>)
    requires f.ByteField? && FieldInRange(f)
    ensures ReadField(host, pre + FieldBytes(f) + post, Cursor(|pre|, false), f)
         == (f, Cursor(|pre| + |FieldBytes(f)|, false))
  {
    ByteRoundTrip(pre, f.b, post, false);
  }

  lemma ShortFieldRoundTrip(host: Endian, pre: seq<byte>, f: Field, post: seq<byte>)
    requires f.ShortField? && FieldInRange(f)
    ensures ReadField(host, pre + FieldBytes(f) + post, Cursor(|pre|, false), f)
         == (f, Cursor(|pre| + |FieldBytes(f)|, false))
  {
    ShortWireRoundTrip(pre, f.s, post, false);
  }

  lemma LongFieldRoundTrip(host: Endian, pre: seq<byte>, f: Field, post: seq<byte>)
    requires f.LongField? && FieldInRange(f)
    ensures ReadField(host, pre + FieldBytes(f) + post, Cursor(|pre|, false), f)
         == (f, Cursor(|pre| + |FieldBytes(f)|, false))
  {
    LongWireRoundTrip(pre, f.l, post, false);
  }

  lemma FloatFieldRoundTrip(host: Endian, pre: seq<byte>, f: Field, post: seq<byte>)
    requires f.FloatField? && FieldInRange(f)
    ensures ReadField(host, pre + FieldBytes(f) + post, Cursor(|pre|, false), f)
         == (f, Cursor(|pre| + |FieldBytes(f)|, false))
  {
    var buf := pre + FieldBytes(f) + post;
    assert buf[|pre|..|pre| + 4] == f.bits;
    ReadFloatIsWireBits(host, buf, Cursor(|pre|, false));
  }

  lemma StringFieldRoundTrip(host: Endian, pre: seq<byte>, f: Field, post: seq<byte>)
    requires f.StringField? && FieldInRange(f)
    ensures ReadField(host, pre + FieldBytes(f) + post, Cursor(|pre|, false), f)
         == (f, Cursor(|pre| + |FieldBytes(f)|, false))
  {
    assert FieldBytes(f) == StringLayout(Some(f.str));
    StringRoundTrip(pre, f.str, post);
  }

  /** When each field written with `enc` reads back with `rd` wherever it
      sits, the fields written one after another read back in order. */
  lemma {:induction false} RoundTripWith(enc: Field -> seq<byte>, rd: (seq<byte>, Cursor, Field) -> (Field, Cursor),
                                         pre: seq<byte>, fs: seq<Field>, post: seq<byte>)
    requires forall f, p, q | f in fs :: rd(p + enc(f) + q, Cursor(|p|, false), f) == (f, Cursor(|p| + |enc(f)|, false))
    ensures ReadFieldsWith(rd, pre + EncodeWith(enc, fs) + post, Cursor(|pre|, false), fs)
         == (fs, Cursor(|pre| + |EncodeWith(enc, fs)|, false))
    decreases |fs|
  {
    if fs != [] {
      var head, rest := enc(fs[0]), EncodeWith(enc, fs[1..]);
      var buf := pre + EncodeWith(enc, fs) + post;
      assert buf == pre + head + (rest + post);
      assert buf == (pre + head) + rest + post;
      RoundTripWith(enc, rd, pre + head, fs[1..], post);
      assert [fs[0]] + fs[1..] == fs;
    }
  }

  /** A message of any fields, written in order, reads back as the same
      fields, on any host, and the cursor ends just past them. */
  lemma MessageRoundTrip(host: Endian, pre: seq<byte>, fs: seq<Field>, post: seq<byte>)
    requires AllInRange(fs)
    ensures ReadFields(host, pre + Encode(fs) + post, Cursor(|pre|, false), fs)
         == (fs, Cursor(|pre| + |Encode(fs)|, false))
  {
    forall f, p, q | f in fs
      ensures Reader(host)(p + FieldBytes(f) + q, Cursor(|p|, false), f) == (f, Cursor(|p| + |FieldBytes(f)|, false))
    {
      FieldRoundTrip(host, p, f, q);
    }
    RoundTripWith(FieldBytes, Reader(host), pre, fs, post);
  }

  // ---------------------------------------------------------------------
  // The cursor's state machine

  datatype ReadOp = OpChar | OpByte | OpPeek | OpShort | OpLong | OpFloat | OpString

  /** The cursor after one read. */
  function Step(host: Endian, buf: seq<byte>, c: Cursor, op: ReadOp): Cursor
  {
    match op
    case OpChar => ReadCharF(buf, c).1
    case OpByte => ReadByteF(buf, c).1
    case OpPeek => PeekByteF(buf, c).1
    case OpShort => ReadShortF(buf, c).1
    case OpLong => ReadLongF(buf, c).1
    case OpFloat => ReadFloatF(host, buf, c).1
    case OpString => ReadStringF(buf, c).1
  }

  /** The cursor after a series of reads. */
  function Run(host: Endian, buf: seq<byte>, c: Cursor, ops: seq<ReadOp>): Cursor
    decreases |ops|
  {
    if ops == [] then c else Run(host, buf, Step(host, buf, c, ops[0]), ops[1..])
  }

  /** No read clears `badread`, and no read takes `readcount` past the
      committed size; only MSG_BeginReading resets the cursor. */
  lemma {:induction false} CursorInvariant(host: Endian, buf: seq<byte>, c: Cursor, ops: seq<ReadOp>)
    requires c.readcount <= |buf|
    ensures Run(host, buf, c, ops).readcount <= |buf|
    ensures c.badread ==> Run(host, buf, c, ops).badread
    ensures Run(host, buf, c, ops).readcount >= c.readcount
    decreases |ops|
  {
    if ops != [] {
      CursorInvariant(host, buf, Step(host, buf, c, ops[0]), ops[1..]);
    }
  }

  /** A cursor at the end of the data stays there, and every read from it
      fails with `badread` set. */
  lemma {:induction false} ExhaustedStaysExhausted(host: Endian, buf: seq<byte>, c: Cursor, ops: seq<ReadOp>)
    requires c.readcount == |buf|
    ensures Run(host, buf, c, ops).readcount == |buf|
    ensures ops != [] ==> Run(host, buf, c, ops).badread
    decreases |ops|
  {
    if ops != [] {
      var c1 := Step(host, buf, c, ops[0]);
      assert c1.readcount == |buf| && c1.badread;
      ExhaustedStaysExhausted(host, buf, c1, ops[1..]);
      CursorInvariant(host, buf, c1, ops[1..]);
    }
  }

  /** A failed MSG_ReadShort, MSG_ReadLong or MSG_ReadFloat moves the cursor
      to the end, so the next read fails even if it would have fitted. */
  lemma {:induction false} FailedWideReadExhausts(host: Endian, buf: seq<byte>, c: Cursor, op: ReadOp)
    requires op == OpShort || op == OpLong || op == OpFloat
    requires c.readcount + (if op == OpShort then 2 else 4) > |buf|
    ensures Step(host, buf, c, op) == Cursor(|buf|, true)
    ensures ReadByteF(buf, Step(host, buf, c, op)).0 == -1
  {
  }

  /** After a string with no terminator the cursor has not moved, so the
      next byte read succeeds although `badread` is set: only MSG_ReadString
      looks at the flag before reading. */
  lemma ByteReadAfterUnterminatedString()
    ensures ReadStringF([65], Start) == ([65], Cursor(0, true))
    ensures ReadByteF([65], Cursor(0, true)) == (65, Cursor(1, true))
  {
    assert [65][0..] == [65];
    assert NulFrom([65], 0) == 1;
  }

  /** Once `badread` is set every further MSG_ReadString returns "". */
  lemma StringAfterBadReadIsEmpty(buf: seq<byte>, c: Cursor)
    requires c.badread
    ensures ReadStringF(buf, c) == ([], c)
  {
  }

  // ---------------------------------------------------------------------
  // The `qmsg_t` object

  class MsgReader {
    const message: SizeBuf
    var readcount: nat
    var badread: bool
    /** The text held in `badread_string`, and the size of that buffer. */
    var badreadString: seq<byte>
    var badreadStringSize: nat

    constructor (message: SizeBuf)
      ensures this.message == message
      ensures readcount == 0 && !badread && badreadStringSize == 0
    {
      this.message := message;
      readcount := 0;
      badread := false;
      badreadString := [];
      badreadStringSize := 0;
    }

    ghost function Cur(): Cursor
      reads this
    {
      Cursor(readcount, badread)
    }

    /** MSG_BeginReading. */
    method BeginReading()
      modifies this`readcount, this`badread
      ensures Cur() == Start
    {
      readcount := 0;
      badread := false;
    }

    method ReadChar() returns (r: int)
      requires message.Valid()
      modifies this`readcount, this`badread
      ensures (r, Cur()) == ReadCharF(message.Contents(), old(Cur()))
    {
      if readcount + 1 <= message.cursize {
        r := SignedChar(message.data[readcount]);
        readcount := readcount + 1;
        return;
      }
      badread := true;
      r := -1;
    }

    method ReadByte() returns (r: int)
      requires message.Valid()
      modifies this`readcount, this`badread
      ensures (r, Cur()) == ReadByteF(message.Contents(), old(Cur()))
    {
      if readcount + 1 <= message.cursize {
        r := message.data[readcount];
        readcount := readcount + 1;
        return;
      }
      badread := true;
      r := -1;
    }

    method PeekByte() returns (r: int)
      requires message.Valid()
      modifies this`badread
      ensures (r, Cur()) == PeekByteF(message.Contents(), old(Cur()))
    {
      if readcount + 1 <= message.cursize {
        r := message.data[readcount];
        return;
      }
      badread := true;
      r := -1;
    }

    method ReadShort() returns (r: int)
      requires message.Valid()
      modifies this`readcount, this`badread
      ensures (r, Cur()) == ReadShortF(message.Contents(), old(Cur()))
    {
      if readcount + 2 <= message.cursize {
        r := WrapShort(Word(message.data[readcount], message.data[readcount + 1]));
        assert message.Contents()[readcount..readcount + 2] == [message.data[readcount], message.data[readcount + 1]];
        readcount := readcount + 2;
        return;
      }
      readcount := message.cursize;
      badread := true;
      r := -1;
    }

    method ReadLong() returns (r: int)
      requires message.Valid()
      modifies this`readcount, this`badread
      ensures (r, Cur()) == ReadLongF(message.Contents(), old(Cur()))
    {
      if readcount + 4 <= message.cursize {
        var d := message.data;
        r := WrapLong(DWord(d[readcount], d[readcount + 1], d[readcount + 2], d[readcount + 3]));
        assert message.Contents()[readcount..readcount + 4] == [d[readcount], d[readcount + 1], d[readcount + 2], d[readcount + 3]];
        readcount := readcount + 4;
        return;
      }
      readcount := message.cursize;
      badread := true;
      r := -1;
    }

    /** MSG_ReadFloat on `host`; the result is the float's bit pattern. */
    method ReadFloat(host: Endian) returns (r: seq<byte>)
      requires message.Valid()
      modifies this`readcount, this`badread
      ensures (r, Cur()) == ReadFloatF(host, message.Contents(), old(Cur()))
    {
      if readcount + 4 <= message.cursize {
        var d := message.data;
        var m := [d[readcount], d[readcount + 1], d[readcount + 2], d[readcount + 3]];
        assert message.Contents()[readcount..readcount + 4] == m;
        LongConversionsDecode(host, m);
        var l := ApplyLong(ComInit(host).littleLong, LongFromMemory(host, m));
        r := FloatBits(host, LongInMemory(host, l));
        readcount := readcount + 4;
        return;
      }
      readcount := message.cursize;
      badread := true;
      r := MinusOneBits;
    }

    /** strnlen over the bytes that remain after `readcount`. */
    method ScanString() returns (len: nat)
      requires message.Valid() && readcount < message.cursize
      ensures readcount + len == NulFrom(message.Contents(), readcount)
    {
      var maxlen := message.cursize - readcount;
      len := 0;
      while len < maxlen && message.data[readcount + len] != 0
        invariant 0 <= len <= maxlen
        invariant forall j :: readcount <= j < readcount + len ==> message.Contents()[j] != 0
      {
        len := len + 1;
      }
      NulFromUnique(message.Contents(), readcount, readcount + len);
    }

    /** MSG_ReadString. */
    method ReadString() returns (r: seq<byte>)
      requires message.Valid()
      modifies this`readcount, this`badread, this`badreadString, this`badreadStringSize
      ensures (r, Cur()) == ReadStringF(message.Contents(), old(Cur()))
      ensures badreadStringSize >= old(badreadStringSize)
      ensures badreadStringSize > old(badreadStringSize) ==> badreadStringSize == |r| + 1
      ensures Cur().badread && !old(Cur().badread) && r != [] ==> badreadString == r
    {
      if badread || readcount + 1 > message.cursize {
        badread := true;
        return [];
      }
      var len := ScanString();
      var maxlen := message.cursize - readcount;
      ghost var rest := message.Contents()[readcount..];
      if len == maxlen {
        badread := true;
        if len + 1 > badreadStringSize {
          badreadStringSize := len + 1;
        }
        badreadString := message.data[readcount..readcount + len];
        assert badreadString == rest;
        r := badreadString;
        return;
      }
      r := message.data[readcount..readcount + len];
      assert readcount + len < message.cursize;
      assert forall k :: 0 <= k < len ==> r[k] == message.Contents()[readcount + k];
      assert r == message.Contents()[readcount..readcount + len];
      readcount := readcount + len + 1;
    }
  }
}
