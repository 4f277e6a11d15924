/** The message buffer `sizebuf_t` (SZ_Alloc, SZ_Free, SZ_Clear, SZ_GetSpace,
    SZ_Write, SZ_Print).

    SZ_GetSpace is the one place where space is handed out and where the
    overflow policy lives.  A `Sys_Error` is the `Fatal` outcome: the engine
    stops there, so nothing after it is modelled. */
module SizeBuffer {
  import opened CTypes

  /** The two `Sys_Error` conditions of SZ_GetSpace. */
  datatype SizeBufError = OverflowWithoutAllow | LengthExceedsBuffer

  /** What SZ_GetSpace hands out: the offset of the region, and whether the
      buffer was cleared (overflowed) to make room for it. */
  datatype Grant = Granted(offset: nat, overflow: bool) | Fatal(error: SizeBufError)

  /** The decision SZ_GetSpace takes for a request of `length` bytes. */
  function GetSpaceRule(cursize: int, maxsize: int, allowoverflow: bool, length: int): (g: Grant)
    requires 0 <= cursize <= maxsize && 0 <= length
    ensures g.Granted? ==> g.offset + length <= maxsize
    ensures g.Granted? && !g.overflow ==> g.offset == cursize
    ensures g.Granted? && g.overflow ==> g.offset == 0
    ensures g.Fatal? <==> cursize + length > maxsize && (!allowoverflow || length > maxsize)
    ensures g.Granted? ==> (g.overflow <==> cursize + length > maxsize)
  {
    if cursize + length > maxsize then
      if !allowoverflow then Fatal(OverflowWithoutAllow)
      else if length > maxsize then Fatal(LengthExceedsBuffer)
      else Granted(0, true)
    else
      Granted(cursize, false)
  }

  /** `s` without its last byte when that byte is a 0 terminator. */
  function DropTrailingNul(s: seq<byte>): (r: seq<byte>)
    ensures s == r || s == r + [0]
    ensures s != [] && s[|s| - 1] == 0 ==> |r| == |s| - 1
  {
    if s != [] && s[|s| - 1] == 0 then s[..|s| - 1] else s
  }

  /** The contents after SZ_Print of `text` when no overflow happens: an old
      trailing 0 is overwritten, then the text and one 0 follow. */
  function PrintedContents(old_contents: seq<byte>, text: seq<byte>): seq<byte>
  {
    DropTrailingNul(old_contents) + text + [0]
  }

  /** After SZ_Print the buffer ends with the text and exactly one 0. */
  lemma {:induction false} PrintEndsWithText(old_contents: seq<byte>, text: seq<byte>)
    requires NoNul(text)
    ensures var r := PrintedContents(old_contents, text);
      r[|r| - |text| - 1..] == text + [0] &&
      (|r| == |text| + 1 || r[|r| - |text| - 2] != 0 || old_contents[|r| - |text| - 2] == 0)
  {
    var r := PrintedContents(old_contents, text);
    var d := DropTrailingNul(old_contents);
    assert r == d + (text + [0]);
    if |r| > |text| + 1 {
      assert r[|r| - |text| - 2] == d[|d| - 1];
      assert d[|d| - 1] == old_contents[|d| - 1];
    }
  }

  /** Two prints in a row read as one print of the joined text: the buffer
      holds one NUL-terminated stream, not several strings. */
  lemma {:induction false} PrintsConcatenate(s: seq<byte>, a: seq<byte>, b: seq<byte>)
    ensures PrintedContents(PrintedContents(s, a), b) == PrintedContents(s, a + b)
  {
    var d := DropTrailingNul(s);
    assert PrintedContents(s, a) == (d + a) + [0];
    assert DropTrailingNul((d + a) + [0]) == d + a;
  }

  /** Where SZ_Print starts copying its `textLen + 1` bytes, or None when
      SZ_GetSpace is fatal.  In the overwrite branch the copy starts one byte
      before the region SZ_GetSpace returned. */
  function PrintStart(cursize: int, maxsize: int, allowoverflow: bool, endsInNul: bool, textLen: nat): (start: Option<int>)
    requires 0 <= cursize <= maxsize
    ensures start.Some? ==> start.value + textLen + 1 <= maxsize
  {
    if cursize == 0 || !endsInNul then
      var g := GetSpaceRule(cursize, maxsize, allowoverflow, textLen + 1);
      if g.Granted? then Some(g.offset) else None
    else
      var g := GetSpaceRule(cursize, maxsize, allowoverflow, textLen);
      if g.Granted? then Some(g.offset - 1) else None
  }

  /** The overwrite branch of SZ_Print writes before the buffer when its
      SZ_GetSpace call overflows: a full 256-byte buffer ending in 0, with
      overflow allowed, printing a one-character text. */
  lemma PrintUnderrunWitness()
    ensures PrintStart(256, 256, true, true, 1) == Some(-1)
  {
  }

  /** SZ_Print as evidently intended: when the overwrite branch had to clear
      the buffer there is no trailing 0 left to overwrite, so the text and its
      0 are placed from the start of the cleared buffer. */
  function PrintStartIntended(cursize: int, maxsize: int, allowoverflow: bool, endsInNul: bool, textLen: nat): (start: Option<int>)
    requires 0 <= cursize <= maxsize
    ensures start.Some? ==> 0 <= start.value && start.value + textLen + 1 <= maxsize
    ensures start.Some? && cursize > 0 && endsInNul && cursize + textLen <= maxsize ==> start.value == cursize - 1
  {
    if cursize == 0 || !endsInNul then
      var g := GetSpaceRule(cursize, maxsize, allowoverflow, textLen + 1);
      if g.Granted? then Some(g.offset) else None
    else
      var g := GetSpaceRule(cursize, maxsize, allowoverflow, textLen);
      if g.Fatal? then None
      else if !g.overflow then Some(g.offset - 1)
      else if textLen + 1 <= maxsize then Some(0)
      else None
  }

  /** A `sizebuf_t`. */
  class SizeBuf {
    var data: array<byte>
    var maxsize: int
    var cursize: int
    var allowoverflow: bool
    var overflowed: bool

    ghost predicate Valid()
      reads this
    {
      maxsize == data.Length && 0 <= cursize <= maxsize
    }

    /** The bytes written so far. */
    ghost function Contents(): seq<byte>
      reads this, data
      requires Valid()
    {
      data[..cursize]
    }

    /** SZ_Alloc on a zero-initialised `sizebuf_t`: at least 256 bytes of
        zeroed hunk memory, empty, overflow not allowed. */
    constructor Alloc(startsize: int)
      ensures Valid() && fresh(data)
      ensures maxsize == (if startsize < 256 then 256 else startsize)
      ensures maxsize >= 256 && maxsize >= startsize
      ensures Contents() == [] && !allowoverflow && !overflowed
      ensures forall i :: 0 <= i < data.Length ==> data[i] == 0
    {
      var size := startsize;
      if size < 256 {
        size := 256;
      }
      data := new byte[size](_ => 0);
      maxsize := size;
      cursize := 0;
      allowoverflow := false;
      overflowed := false;
    }

    /** SZ_Clear: empty the buffer, keep its storage. */
    method Clear()
      requires Valid()
      modifies this`cursize
      ensures Valid() && Contents() == []
    {
      cursize := 0;
    }

    /** SZ_Free: the same as SZ_Clear, since hunk memory is never released. */
    method Free()
      requires Valid()
      modifies this`cursize
      ensures Valid() && Contents() == []
    {
      cursize := 0;
    }

    /** SZ_GetSpace: reserve `length` bytes.  The region's old bytes are left
        as they were; nothing is zeroed. */
    method GetSpace(length: int) returns (g: Grant)
      requires Valid() && 0 <= length
      modifies this`cursize, this`overflowed
      ensures Valid()
      ensures g == GetSpaceRule(old(cursize), maxsize, allowoverflow, length)
      ensures g.Granted? ==> cursize == g.offset + length && overflowed == (old(overflowed) || g.overflow)
      ensures g.Fatal? ==> cursize == old(cursize) && overflowed == old(overflowed)
    {
      g := GetSpaceRule(cursize, maxsize, allowoverflow, length);
      if cursize + length > maxsize {
        if !allowoverflow {
          return;
        }
        if length > maxsize {
          return;
        }
        overflowed := true;
        Clear();
      }
      cursize := cursize + length;
    }

    /** Copy `bytes` into the data array from `offset` on (memcpy). */
    method CopyIn(offset: int, bytes: seq<byte>)
      requires Valid() && 0 <= offset && offset + |bytes| <= data.Length
      modifies data
      ensures data[..offset] == old(data[..offset])
      ensures data[offset..offset + |bytes|] == bytes
      ensures data[offset + |bytes|..] == old(data[offset + |bytes|..])
    {
      var i := 0;
      while i < |bytes|
        invariant 0 <= i <= |bytes|
        invariant data[..offset] == old(data[..offset])
        invariant data[offset..offset + i] == bytes[..i]
        invariant data[offset + |bytes|..] == old(data[offset + |bytes|..])
      {
        data[offset + i] := bytes[i];
        i := i + 1;
      }
    }

    /** SZ_Write: append `bytes`, or after an allowed overflow make them the
        whole contents. */
    method Write(bytes: seq<byte>) returns (g: Grant)
      requires Valid()
      modifies this`cursize, this`overflowed, data
      ensures Valid()
      ensures g == GetSpaceRule(old(cursize), maxsize, allowoverflow, |bytes|)
      ensures g.Granted? ==> Contents() == (if g.overflow then bytes else old(Contents()) + bytes)
      ensures g.Granted? ==> overflowed == (old(overflowed) || g.overflow)
      ensures g.Fatal? ==> Contents() == old(Contents()) && overflowed == old(overflowed)
    {
      ghost var before := Contents();
      g := GetSpace(|bytes|);
      if g.Granted? {
        CopyIn(g.offset, bytes);
        assert Contents() == data[..g.offset] + data[g.offset..g.offset + |bytes|];
        if !g.overflow {
          assert data[..g.offset] == before;
        }
      }
    }

    /** SZ_Print: append a C string.  When the buffer already ends in a 0 that
        terminator is overwritten.  In that branch SZ_GetSpace may clear the
        buffer; the copy then begins one byte before the data array
        (`underrun`), whose first byte is lost, and the buffer keeps the
        rest of the text and its 0. */
    method Print(text: seq<byte>) returns (g: Grant, underrun: bool)
      requires Valid() && NoNul(text)
      modifies this`cursize, this`overflowed, data
      ensures Valid()
      ensures g == GetSpaceRule(old(cursize), maxsize, allowoverflow,
                                if old(cursize) == 0 || old(data[cursize - 1]) != 0 then |text| + 1 else |text|)
      ensures underrun <==> old(cursize) > 0 && old(data[cursize - 1]) == 0 && g.Granted? && g.overflow
      ensures underrun ==> g.Granted? && g.overflow && text != []
      ensures g.Granted? && !g.overflow ==> Contents() == PrintedContents(old(Contents()), text)
      ensures g.Granted? && g.overflow && !underrun ==> Contents() == text + [0]
      ensures underrun ==> Contents() == text[1..] + [0]
      ensures g.Granted? ==> overflowed == (old(overflowed) || g.overflow)
      ensures g.Fatal? ==> Contents() == old(Contents()) && overflowed == old(overflowed)
    {
      if cursize == 0 || data[cursize - 1] != 0 {
        underrun := false;
        g := Write(text + [0]);
      } else {
        g, underrun := OverwriteTerminator(text);
      }
    }

    /** The second branch of SZ_Print: reserve one byte less and copy from one
        byte before the reserved region. */
    method OverwriteTerminator(text: seq<byte>) returns (g: Grant, underrun: bool)
      requires Valid() && 0 < cursize && data[cursize - 1] == 0
      modifies this`cursize, this`overflowed, data
      ensures Valid()
      ensures g == GetSpaceRule(old(cursize), maxsize, allowoverflow, |text|)
      ensures underrun <==> g.Granted? && g.overflow
      ensures underrun ==> text != []
      ensures g.Granted? && !g.overflow ==> Contents() == old(Contents())[..old(cursize) - 1] + text + [0]
      ensures underrun ==> Contents() == text[1..] + [0]
      ensures g.Granted? ==> overflowed == (old(overflowed) || g.overflow)
      ensures g.Fatal? ==> Contents() == old(Contents()) && overflowed == old(overflowed)
    {
      ghost var before := Contents();
      var len := |text| + 1;
      underrun := false;
      g := GetSpace(len - 1);
      if g.Granted? {
        if g.overflow {
          underrun := true;
          CopyOver(0, text[1..] + [0]);
        } else {
          assert Contents()[..g.offset - 1] == before[..|before| - 1];
          CopyOver(g.offset - 1, text + [0]);
        }
      }
    }

    /** Writing the last `|bytes|` bytes of the contents. */
    method CopyOver(start: int, bytes: seq<byte>)
      requires Valid() && 0 <= start && cursize == start + |bytes|
      modifies data
      ensures Contents() == old(Contents())[..start] + bytes
    {
      CopyIn(start, bytes);
      assert Contents() == data[..start] + data[start..start + |bytes|];
    }
  }
}
