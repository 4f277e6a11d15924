/** COM_LoadPackFile: the PAK directory parser.

    A pack file starts with a 12-byte header: the tag "PACK", then the
    little-endian 32-bit offset and length of the directory.  The directory
    is a run of 64-byte records: a 56-byte NUL-padded name, then the
    little-endian offset and length of the file's data.  The file is given
    as its bytes (`None` when it cannot be opened), and the CRC routine,
    whose source is not part of this model, as an initial value and a step
    function. */
module Pak {
  import opened CTypes
  import opened ByteOrder

  const HEADER_SIZE: nat := 12
  const RECORD_SIZE: nat := 64
  const NAME_SIZE: nat := 56
  const MAX_FILES_IN_PACK: nat := 2048
  /** The size of the `info` array the directory is read into. */
  const INFO_SIZE: nat := MAX_FILES_IN_PACK * RECORD_SIZE

  /** The directory of id1/pak0.pak in the 1.0x releases. */
  const PAK0_COUNT: int := 339
  const PAK0_CRC: int := 32981
  const PAK0_CRC_V100: int := 13900
  const PAK0_CRC_V101: int := 62751

  /** "PACK" */
  const PackTag: seq<byte> := [80, 65, 67, 75]

  /** One directory entry, as `packfile_t` holds it. */
  datatype PackFile = PackFile(name: string, filepos: int, filelen: int)

  /** The three ways the loader stops the program through Sys_Error. */
  datatype PackError = NotAPackfile | TooManyFiles | ShortDirectory

  /** NULL when the file does not open, a fatal error, or the entries in
      file order together with whether the pack counts as modified. */
  datatype LoadResult = NoFile | Fatal(error: PackError) | Loaded(files: seq<PackFile>, modified: bool)

  /** CRC_Init's value and CRC_ProcessByte's step. */
  datatype Crc = Crc(init: int, step: (int, byte) -> int)

  /** The CRC of `bs`, one byte at a time from the first. */
  function CrcOf(crc: Crc, bs: seq<byte>): int
  {
    if bs == [] then crc.init else crc.step(CrcOf(crc, bs[..|bs| - 1]), bs[|bs| - 1])
  }

  // ---------------------------------------------------------------------
  // The entry count check

  /** `dirlen` converted to a 32-bit `size_t` for the division by
      `sizeof(dpackfile_t)`. */
  function SizeT(x: int): (u: nat)
    requires IsLong(x)
    ensures u < 0x1_0000_0000
  {
    if x < 0 then x + 0x1_0000_0000 else x
  }

  /** `numpackfiles` as the C code computes it. */
  function CountAsWritten(dirlen: int): nat
    requires IsLong(dirlen)
  {
    SizeT(dirlen) / RECORD_SIZE
  }

  /** The C check: at most MAX_FILES_IN_PACK entries. */
  predicate CountAcceptedAsWritten(dirlen: int)
    requires IsLong(dirlen)
  {
    CountAsWritten(dirlen) <= MAX_FILES_IN_PACK
  }

  /** With a 32-bit `size_t` the C check accepts exactly the lengths below
      `info` plus one record.  A negative `dirlen` converts to a length of
      at least 2^31 bytes, so it is refused. */
  lemma CountAsWrittenMeans(dirlen: int)
    requires IsLong(dirlen)
    ensures CountAcceptedAsWritten(dirlen) <==> 0 <= dirlen < INFO_SIZE + RECORD_SIZE
  {
  }

  /** The check the `info` array needs: the directory fits in it. */
  predicate DirectoryFits(dirlen: int)
  {
    0 <= dirlen <= INFO_SIZE
  }

  /** The C check lets through exactly the lengths that fit plus the 63
      lengths just above the array, whose read runs past `info`. */
  lemma CountCheckGap(dirlen: int)
    requires IsLong(dirlen)
    ensures DirectoryFits(dirlen) ==> CountAcceptedAsWritten(dirlen)
    ensures CountAcceptedAsWritten(dirlen) && !DirectoryFits(dirlen) <==>
      INFO_SIZE < dirlen < INFO_SIZE + RECORD_SIZE
  {
  }

  /** A header with `dirlen` 131073 passes the C check, yet the directory
      read then writes one byte past `info`. */
  lemma DirectoryOverrunsInfo()
    ensures exists dirlen :: IsLong(dirlen) && CountAcceptedAsWritten(dirlen) && dirlen > INFO_SIZE
  {
    assert CountAcceptedAsWritten(INFO_SIZE + 1);
  }

  /** With the corrected check the count the C code uses is the number of
      whole records, and it stays within MAX_FILES_IN_PACK. */
  lemma CorrectedCount(dirlen: int)
    requires DirectoryFits(dirlen)
    ensures CountAsWritten(dirlen) == dirlen / RECORD_SIZE <= MAX_FILES_IN_PACK
  {
  }

  // ---------------------------------------------------------------------
  // The parser

  /** The rule of common.c: a pack is "modified" only when neither its entry
      count nor its directory CRC is that of an original pak0.pak. */
  predicate IsModified(count: int, crc: int)
  {
    count != PAK0_COUNT && crc != PAK0_CRC && crc != PAK0_CRC_V100 && crc != PAK0_CRC_V101
  }

  lemma RecordFits(n: nat, i: nat)
    requires i < n / RECORD_SIZE
    ensures RECORD_SIZE * i + RECORD_SIZE <= n
  {
  }

  /** The entry that record `i` of the directory describes. */
  function EntryAt(dir: seq<byte>, i: nat): PackFile
    requires RECORD_SIZE * i + RECORD_SIZE <= |dir|
  {
    var rec := dir[RECORD_SIZE * i..RECORD_SIZE * i + RECORD_SIZE];
    PackFile(Chars(UntilNul(rec[..NAME_SIZE])), LongOfLE(rec[56..60]), LongOfLE(rec[60..64]))
  }

  /** The entries of the directory, in record order. */
  function Entries(dir: seq<byte>): (es: seq<PackFile>)
    ensures |es| == |dir| / RECORD_SIZE
  {
    seq(|dir| / RECORD_SIZE, i requires 0 <= i < |dir| / RECORD_SIZE =>
      RecordFits(|dir|, i); EntryAt(dir, i))
  }

  lemma EntriesIndex(dir: seq<byte>, i: nat)
    requires i < |dir| / RECORD_SIZE
    ensures RECORD_SIZE * i + RECORD_SIZE <= |dir|
    ensures Entries(dir)[i] == EntryAt(dir, i)
  {
  }

  /** Whether the file starts with a whole header carrying the "PACK" tag. */
  predicate HasHeader(f: seq<byte>)
  {
    |f| >= HEADER_SIZE && f[..4] == PackTag
  }

  /** `header.dirofs` after LittleLong. */
  function DirOfs(f: seq<byte>): int
    requires |f| >= HEADER_SIZE
  {
    LongOfLE(f[4..8])
  }

  /** `header.dirlen` after LittleLong. */
  function DirLen(f: seq<byte>): int
    requires |f| >= HEADER_SIZE
  {
    LongOfLE(f[8..12])
  }

  /** Where the directory read starts: Sys_FileSeek to `dirofs`, or, when
      `fseek` refuses a negative offset, the position the header read left,
      just after the header. */
  function ReadStart(dirofs: int): (pos: nat)
    ensures dirofs >= 0 ==> pos == dirofs
    ensures dirofs < 0 ==> pos == HEADER_SIZE
  {
    if dirofs >= 0 then dirofs else HEADER_SIZE
  }

  /** Sys_FileRead of `dirlen` bytes from `pos`: `fread` returns how many
      bytes the file still holds there, up to `dirlen`, and the loader
      accepts only all of them.  A read of 0 bytes always succeeds, even
      past the end of the file. */
  function DirectoryRead(f: seq<byte>, pos: nat, dirlen: nat): (r: Option<seq<byte>>)
    ensures r.Some? <==> dirlen == 0 || pos + dirlen <= |f|
    ensures r.Some? ==> |r.value| == dirlen
    ensures r.Some? && dirlen > 0 ==> r.value == f[pos..pos + dirlen]
  {
    if dirlen == 0 then Some([])
    else if pos + dirlen <= |f| then Some(f[pos..pos + dirlen])
    else None
  }

  /** Which entry count check the loader applies: the one in common.c, or
      the corrected one that keeps the directory inside `info`. */
  datatype CountCheck = AsWritten | Corrected

  predicate CountAccepted(check: CountCheck, dirlen: int)
    requires IsLong(dirlen)
    ensures CountAccepted(check, dirlen) ==> 0 <= dirlen < INFO_SIZE + RECORD_SIZE
  {
    match check
    case AsWritten => CountAcceptedAsWritten(dirlen)
    case Corrected => DirectoryFits(dirlen)
  }

  /** COM_LoadPackFile under a given count check: the header, the count
      check, the seek and read of the directory (a read of 0 bytes always
      succeeds), then the entries and the modified flag. */
  function ParseWith(check: CountCheck, file: Option<seq<byte>>, crc: Crc): LoadResult
  {
    match file
    case None => NoFile
    case Some(f) =>
      if |f| < HEADER_SIZE || f[..4] != PackTag then Fatal(NotAPackfile)
      else
        var dirofs := LongOfLE(f[4..8]);
        var dirlen := LongOfLE(f[8..12]);
        if !CountAccepted(check, dirlen) then Fatal(TooManyFiles)
        else
          var pos := if dirofs >= 0 then dirofs else HEADER_SIZE;
          if dirlen > 0 && pos + dirlen > |f| then Fatal(ShortDirectory)
          else
            var dir := if dirlen == 0 then [] else f[pos..pos + dirlen];
            Loaded(Entries(dir), IsModified(dirlen / RECORD_SIZE, CrcOf(crc, dir)))
  }

  /** ParseWith step by step: the header, the count check, the read. */
  lemma ParseSteps(check: CountCheck, f: seq<byte>, crc: Crc)
    ensures !HasHeader(f) ==> ParseWith(check, Some(f), crc) == Fatal(NotAPackfile)
    ensures HasHeader(f) && !CountAccepted(check, DirLen(f)) ==> ParseWith(check, Some(f), crc) == Fatal(TooManyFiles)
    ensures HasHeader(f) && CountAccepted(check, DirLen(f)) ==>
      var read := DirectoryRead(f, ReadStart(DirOfs(f)), DirLen(f));
      (read.None? ==> ParseWith(check, Some(f), crc) == Fatal(ShortDirectory)) &&
      (read.Some? ==>
         ParseWith(check, Some(f), crc) ==
           Loaded(Entries(read.value), IsModified(DirLen(f) / RECORD_SIZE, CrcOf(crc, read.value))))
  {
    if HasHeader(f) && CountAccepted(check, DirLen(f)) {
      var dirlen := DirLen(f);
      var pos := ReadStart(DirOfs(f));
      assert dirlen == LongOfLE(f[8..12]) && pos == (if LongOfLE(f[4..8]) >= 0 then LongOfLE(f[4..8]) else HEADER_SIZE);
      var read := DirectoryRead(f, pos, dirlen);
      if read.Some? {
        assert read.value == if dirlen == 0 then [] else f[pos..pos + dirlen];
      }
    }
  }

  /** COM_LoadPackFile with the corrected count check, which the rest of
      the model uses. */
  function ParsePack(file: Option<seq<byte>>, crc: Crc): LoadResult
  {
    ParseWith(Corrected, file, crc)
  }

  /** COM_LoadPackFile as common.c writes it. */
  function ParsePackAsWritten(file: Option<seq<byte>>, crc: Crc): LoadResult
  {
    ParseWith(AsWritten, file, crc)
  }

  /** The loader's outcomes, case by case: NULL exactly when the file does
      not open; "not a packfile" exactly for a short header or a wrong tag;
      "too many files" exactly when the directory does not fit `info`;
      "can't read directory" exactly when the file holds fewer than
      `dirlen` bytes where the read starts; otherwise the entries of the
      bytes read, `dirlen / 64` of them. */
  lemma ParsePackCases(file: Option<seq<byte>>, crc: Crc)
    ensures ParsePack(file, crc) == NoFile <==> file.None?
    ensures file.Some? ==> (ParsePack(file, crc) == Fatal(NotAPackfile) <==> !HasHeader(file.value))
    ensures file.Some? && HasHeader(file.value) ==>
      (ParsePack(file, crc) == Fatal(TooManyFiles) <==> !DirectoryFits(DirLen(file.value)))
    ensures file.Some? && HasHeader(file.value) && DirectoryFits(DirLen(file.value)) ==>
      var f := file.value;
      (ParsePack(file, crc) == Fatal(ShortDirectory) <==>
        DirLen(f) > 0 && ReadStart(DirOfs(f)) + DirLen(f) > |f|)
    ensures ParsePack(file, crc).Loaded? ==>
      var f := file.value;
      var dir := DirectoryRead(f, ReadStart(DirOfs(f)), DirLen(f)).value;
      HasHeader(f) && |dir| == DirLen(f) &&
      ParsePack(file, crc).files == Entries(dir) &&
      |ParsePack(file, crc).files| == DirLen(f) / RECORD_SIZE <= MAX_FILES_IN_PACK &&
      ParsePack(file, crc).modified == IsModified(DirLen(f) / RECORD_SIZE, CrcOf(crc, dir))
  {
    if file.Some? {
      ParseSteps(Corrected, file.value, crc);
    }
  }

  /** The two checks disagree exactly on a directory of 131073..131135
      bytes: the corrected loader stops with "too many files", while
      common.c goes on to the read, and when the file holds the bytes it
      loads 2048 records after writing past `info`. */
  lemma GapLoadsAsWritten(file: Option<seq<byte>>, crc: Crc)
    ensures ParsePackAsWritten(file, crc) != ParsePack(file, crc) <==>
      file.Some? && HasHeader(file.value) && INFO_SIZE < DirLen(file.value) < INFO_SIZE + RECORD_SIZE
    ensures ParsePackAsWritten(file, crc) != ParsePack(file, crc) ==>
      var f := file.value;
      ParsePack(file, crc) == Fatal(TooManyFiles) &&
      (ParsePackAsWritten(file, crc).Loaded? <==> ReadStart(DirOfs(f)) + DirLen(f) <= |f|) &&
      (ParsePackAsWritten(file, crc).Loaded? ==> |ParsePackAsWritten(file, crc).files| == MAX_FILES_IN_PACK) &&
      (!ParsePackAsWritten(file, crc).Loaded? ==> ParsePackAsWritten(file, crc) == Fatal(ShortDirectory))
  {
    if file.Some? {
      ParseSteps(Corrected, file.value, crc);
      ParseSteps(AsWritten, file.value, crc);
      if HasHeader(file.value) {
        CountCheckGap(DirLen(file.value));
      }
    }
  }

  /** A directory of 0 bytes loads as an empty pack wherever `dirofs`
      points, even past the end of the file. */
  lemma EmptyDirectoryLoads(f: seq<byte>, crc: Crc)
    requires HasHeader(f) && DirLen(f) == 0
    ensures ParsePack(Some(f), crc) == Loaded([], IsModified(0, crc.init))
  {
    ParseSteps(Corrected, f, crc);
    assert DirectoryRead(f, ReadStart(DirOfs(f)), 0) == Some([]);
    assert Entries([]) == [];
  }

  // ---------------------------------------------------------------------
  // Building a pack: the inverse of the parser

  /** An entry a directory record can hold. */
  predicate ValidEntry(e: PackFile)
  {
    |e.name| < NAME_SIZE && IsCString(e.name) && IsLong(e.filepos) && IsLong(e.filelen)
  }

  function Zeros(n: nat): (z: seq<byte>)
    ensures |z| == n && forall i :: 0 <= i < n ==> z[i] == 0
  {
    if n == 0 then [] else [0] + Zeros(n - 1)
  }

  /** The 64 bytes of a directory record. */
  function RecordBytes(e: PackFile): (r: seq<byte>)
    requires ValidEntry(e)
    ensures |r| == RECORD_SIZE
  {
    Bytes(e.name) + Zeros(NAME_SIZE - |e.name|) + LE32(e.filepos) + LE32(e.filelen)
  }

  /** The directory holding `es` in order. */
  function Directory(es: seq<PackFile>): (d: seq<byte>)
    requires forall i :: 0 <= i < |es| ==> ValidEntry(es[i])
    ensures |d| == RECORD_SIZE * |es|
  {
    if es == [] then [] else RecordBytes(es[0]) + Directory(es[1..])
  }

  /** A pack file whose header holds `dirofs`, with the directory right
      after the header. */
  function BuildPack(es: seq<PackFile>, dirofs: int): seq<byte>
    requires forall i :: 0 <= i < |es| ==> ValidEntry(es[i])
    requires IsLong(dirofs)
  {
    PackTag + LE32(dirofs) + LE32(RECORD_SIZE * |es|) + Directory(es)
  }

  lemma {:induction false} DirectoryRecord(es: seq<PackFile>, i: nat)
    requires forall k :: 0 <= k < |es| ==> ValidEntry(es[k])
    requires i < |es|
    ensures Directory(es)[RECORD_SIZE * i..RECORD_SIZE * i + RECORD_SIZE] == RecordBytes(es[i])
  {
    var r := RecordBytes(es[0]);
    assert Directory(es) == r + Directory(es[1..]);
    if i > 0 {
      DirectoryRecord(es[1..], i - 1);
      SliceAfter(r, Directory(es[1..]), RECORD_SIZE * i, RECORD_SIZE * i + RECORD_SIZE);
    } else {
      assert (r + Directory(es[1..]))[..RECORD_SIZE] == r;
    }
  }

  lemma SliceAfter(x: seq<byte>, y: seq<byte>, lo: nat, hi: nat)
    requires |x| <= lo <= hi <= |x| + |y|
    ensures (x + y)[lo..hi] == y[lo - |x|..hi - |x|]
  {
  }

  lemma {:induction false} CharsOfBytes(s: string)
    requires forall i :: 0 <= i < |s| ==> s[i] as int < 256
    ensures Chars(Bytes(s)) == s
  {
    var c := Chars(Bytes(s));
    assert forall i :: 0 <= i < |s| ==> c[i] as int == s[i] as int;
  }

  lemma {:induction false} UntilNulOfPadded(b: seq<byte>, n: nat)
    requires NoNul(b) && n >= 1
    ensures UntilNul(b + Zeros(n)) == b
  {
    if b != [] {
      assert (b + Zeros(n))[1..] == b[1..] + Zeros(n);
      UntilNulOfPadded(b[1..], n);
    }
  }

  /** A record decodes to the entry it was built from. */
  lemma RecordRoundTrip(e: PackFile)
    requires ValidEntry(e)
    ensures EntryAt(RecordBytes(e), 0) == e
  {
    var r := RecordBytes(e);
    assert r[RECORD_SIZE * 0..RECORD_SIZE * 0 + RECORD_SIZE] == r;
    var b := Bytes(e.name);
    assert r[..NAME_SIZE] == b + Zeros(NAME_SIZE - |e.name|);
    UntilNulOfPadded(b, NAME_SIZE - |e.name|);
    CharsOfBytes(e.name);
    assert r[56..60] == LE32(e.filepos) && r[60..64] == LE32(e.filelen);
    LongRoundTrip(e.filepos);
    LongRoundTrip(e.filelen);
  }

  /** An entry depends only on its own record. */
  lemma EntryAtRecord(d: seq<byte>, i: nat, rec: seq<byte>)
    requires RECORD_SIZE * i + RECORD_SIZE <= |d|
    requires d[RECORD_SIZE * i..RECORD_SIZE * i + RECORD_SIZE] == rec
    ensures EntryAt(d, i) == EntryAt(rec, 0)
  {
    assert rec[RECORD_SIZE * 0..RECORD_SIZE * 0 + RECORD_SIZE] == rec;
  }

  /** Parsing a built directory gives back its entries. */
  lemma EntriesRoundTrip(es: seq<PackFile>)
    requires forall i :: 0 <= i < |es| ==> ValidEntry(es[i])
    ensures Entries(Directory(es)) == es
  {
    var d := Directory(es);
    var ds := Entries(d);
    assert |ds| == |es|;
    forall i | 0 <= i < |es| ensures ds[i] == es[i] {
      EntriesIndex(d, i);
      DirectoryRecord(es, i);
      EntryAtRecord(d, i, RecordBytes(es[i]));
      RecordRoundTrip(es[i]);
    }
  }

  /** A pack built from at most MAX_FILES_IN_PACK entries loads back as
      those entries, in order.  The header may point at the directory, or
      hold a negative offset: the seek then fails and the read starts just
      after the header, where the directory is. */
  lemma PackRoundTrip(es: seq<PackFile>, crc: Crc, dirofs: int)
    requires forall i :: 0 <= i < |es| ==> ValidEntry(es[i])
    requires |es| <= MAX_FILES_IN_PACK
    requires dirofs == HEADER_SIZE || (IsLong(dirofs) && dirofs < 0)
    ensures ParsePack(Some(BuildPack(es, dirofs)), crc) ==
      Loaded(es, IsModified(|es|, CrcOf(crc, Directory(es))))
  {
    var f := BuildPack(es, dirofs);
    var d := Directory(es);
    var n := RECORD_SIZE * |es|;
    assert f[..4] == PackTag;
    assert f[4..8] == LE32(dirofs) && f[8..12] == LE32(n);
    LongRoundTrip(dirofs);
    LongRoundTrip(n);
    assert ReadStart(dirofs) == HEADER_SIZE;
    assert f[HEADER_SIZE..HEADER_SIZE + n] == d;
    ParseWellFormed(f, crc, d);
    assert n / RECORD_SIZE == |es|;
    EntriesRoundTrip(es);
  }

  /** A file whose header passes every check loads as the entries of the
      directory the read gets. */
  lemma ParseWellFormed(f: seq<byte>, crc: Crc, dir: seq<byte>)
    requires HasHeader(f) && DirectoryFits(DirLen(f))
    requires ReadStart(DirOfs(f)) + DirLen(f) <= |f|
    requires dir == f[ReadStart(DirOfs(f))..ReadStart(DirOfs(f)) + DirLen(f)]
    ensures ParsePack(Some(f), crc) == Loaded(Entries(dir), IsModified(DirLen(f) / RECORD_SIZE, CrcOf(crc, dir)))
  {
    ParseSteps(Corrected, f, crc);
  }

  // ---------------------------------------------------------------------
  // The loader with its loops

  /** COM_LoadPackFile: check the header, CRC the directory byte by byte,
      then copy out each record. */
  method LoadPackFile(file: Option<seq<byte>>, crc: Crc) returns (r: LoadResult)
    ensures r == ParsePack(file, crc)
  {
    if file.None? {
      return NoFile;
    }
    var f := file.value;
    ParseSteps(Corrected, f, crc);
    if |f| < HEADER_SIZE || f[..4] != PackTag {
      return Fatal(NotAPackfile);
    }
    var dirofs := LongOfLE(f[4..8]);
    var dirlen := LongOfLE(f[8..12]);
    if !DirectoryFits(dirlen) {
      return Fatal(TooManyFiles);
    }
    var numpackfiles := dirlen / RECORD_SIZE;
    var read := ReadDirectory(f, dirofs, dirlen);
    if read.None? {
      return Fatal(ShortDirectory);
    }
    var info := read.value;
    var c := DirectoryCrc(info, crc);
    var modified := IsModified(numpackfiles, c);
    var newfiles := ReadEntries(info);
    return Loaded(newfiles[..], modified);
  }

  /** Sys_FileSeek to `dirofs`, then Sys_FileRead of `dirlen` bytes, and
      the loader's test that all of them came. */
  method ReadDirectory(f: seq<byte>, dirofs: int, dirlen: nat) returns (info: Option<seq<byte>>)
    ensures info == DirectoryRead(f, ReadStart(dirofs), dirlen)
  {
    // a negative offset is refused by fseek: the position stays after the header
    var pos := if dirofs >= 0 then dirofs else HEADER_SIZE;
    // fread gets what the file still holds from `pos`, up to dirlen
    var got := if pos >= |f| then 0 else if |f| - pos < dirlen then |f| - pos else dirlen;
    if got != dirlen {
      return None;
    }
    if dirlen == 0 {
      return Some([]);
    }
    return Some(f[pos..pos + dirlen]);
  }

  /** The CRC COM_LoadPackFile runs over the directory, byte by byte. */
  method DirectoryCrc(info: seq<byte>, crc: Crc) returns (c: int)
    ensures c == CrcOf(crc, info)
  {
    c := crc.init;
    var i := 0;
    while i < |info|
      invariant i <= |info| && c == CrcOf(crc, info[..i])
    {
      assert info[..i + 1][..i] == info[..i];
      c := crc.step(c, info[i]);
      i := i + 1;
    }
    assert info[..i] == info;
  }

  /** The `newfiles` array COM_LoadPackFile fills from the directory. */
  method ReadEntries(info: seq<byte>) returns (newfiles: array<PackFile>)
    ensures fresh(newfiles) && newfiles[..] == Entries(info)
  {
    var n := |info| / RECORD_SIZE;
    newfiles := new PackFile[n](_ => PackFile("", 0, 0));
    var i := 0;
    while i < n
      invariant i <= n
      invariant forall k :: 0 <= k < i ==> newfiles[k] == Entries(info)[k]
    {
      RecordFits(|info|, i);
      newfiles[i] := EntryAt(info, i);
      i := i + 1;
    }
  }
}
