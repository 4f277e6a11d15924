# fxquake common.c in Dafny

A model of the engine-independent core of fxquake's `common.c`, with proofs
of its behaviour:

- **Message buffers** (`sizebuf_t`): SZ_Alloc, SZ_Clear, SZ_Free,
  SZ_GetSpace with its overflow policy, SZ_Write and SZ_Print.
- **Wire encoding**: the MSG_Write* functions, which append 1, 2 or 4
  little-endian bytes, a NUL-terminated string or a float's 4 bytes. The
  MSG_Read* functions read them back through a `qmsg_t` cursor, which has a
  sticky `badread` flag and a scratch string that only grows.
- **Byte order**: ShortSwap, LongSwap, FloatSwap, the NoSwap versions, and
  COM_Init's choice of each Big/Little conversion from the host's byte order.
- **PAK directories**: COM_LoadPackFile on the bytes of a pack file. It
  checks the "PACK" header, the entry count and the directory read. It
  decodes the 64-byte records in file order, and applies the rule that marks
  a pack as modified.
- **The search path**:
  - the handle table (Sys_FindHandle, Sys_FileOpenRead, Sys_FileClose);
  - COM_AddGameDirectory, with its path ids and pak0, pak1, … mounts;
  - COM_FindFile's first-hit walk, with the shareware gate;
  - COM_CloseFile;
  - COM_InitFilesystem's mount order and its `-path` override.
- **Text**:
  - COM_Parse, filling `com_token`;
  - Q_strnlen;
  - COM_SkipPath, COM_StripExtension, COM_FileExtension, COM_FileBase and
    COM_DefaultExtension;
  - COM_CheckParm;
  - COM_InitArgv, which builds `com_cmdline`, copies `largv` with the
    `-safe` switches and sets the mission-pack flags.
- **Lists**:
  - COM_FileListAdd, COM_FileListClear and COM_ScanPakFileList (a sorted
    list of names);
  - ClearLink, RemoveLink, InsertLinkBefore and InsertLinkAfter on circular
    `link_t` rings.

One module per part, one file each:

| File | Module | Contents |
|---|---|---|
| `ctypes.dfy` | CTypes | C integer conversions and C strings |
| `byte_order.dfy` | ByteOrder | byte order |
| `sizebuf.dfy` | SizeBuffer | message buffers |
| `message.dfy` | Message | wire encoding |
| `pak.dfy` | Pak | PAK directories |
| `filesystem.dfy` | FileSystem | search path |
| `parse.dfy` | Parse | COM_Parse |
| `paths.dfy` | Paths | path helpers |
| `args.dfy` | Args | COM_CheckParm and COM_InitArgv |
| `filelist.dfy` | FileList | name lists |
| `links.dfy` | Links | `link_t` rings |

Modelling conventions:

- Integers are unbounded. Every C conversion that wraps is written out:
  `(short)`, 32-bit `int` sums, `unsigned << 1`, `(signed char)` and the
  store of an `int` into a `byte`.
- A `Sys_Error` call is a `Fatal` outcome.
- The objects the C code updates in place are classes:
  - `sizebuf_t` has a data array;
  - the `qmsg_t` cursor;
  - `com_token`;
  - `com_cmdline`;
  - the file list;
  - the handle table and `com_searchpaths`;
  - `link_t`.
- Each method that loops is proved equal to a specification function. The
  properties are proved about those functions.
- The disk is a map from path to contents: `fopen` on a path succeeds
  exactly when the path is in the map.
- The CRC routine is a parameter: an initial value and a step function.

## Model

| member | source | states |
|---|---|---|
| CTypes.LowByte | common.c:249-255 | Storing an `int` into a `byte` keeps a value in 0..255 congruent to it modulo 256. |
| CTypes.SignedChar | common.c:353-360 | The `(signed char)` reading of a byte lies in -128..127 and is congruent to the byte modulo 256. |
| CTypes.WrapShort | common.c:381-395 | The `(short)` conversion gives a value in the 16-bit range that is congruent to its argument modulo 2^16. |
| CTypes.WrapLong | common.c:397-413 | A sum taken in 32-bit `int` gives a value in the 32-bit range that is congruent to the exact sum modulo 2^32. |
| CTypes.ShiftLeftUnsigned | common.c:1611 | `unsigned int << 1` stays below 2^32 and doubles every id below 2^31. |
| CTypes.StrLen | common.c:292-298 | `strlen` is the index of the first 0: no 0 comes before it. |
| CTypes.UntilNul | common.c:1572 | The C string held in a buffer has no 0, is a prefix of the buffer and, when shorter than the buffer, is followed by a 0. |
| ByteOrder.ShortBytes | common.c:257-264 | For a short, the value rebuilt from the two bytes MSG_WriteShort stores, taken as a `short`, is the short itself. |
| ByteOrder.ShortRoundTrip | common.c:381-395 | Decoding the two little-endian bytes of any short gives that short back. |
| ByteOrder.ShortBytesRoundTrip | common.c:381-395 | Every pair of bytes is the little-endian encoding of the short it decodes to, so the decoding is one-to-one. |
| ByteOrder.LongDigits | common.c:266-275 | The four bytes MSG_WriteLong stores, taken as base-256 digits, are the value modulo 2^32. |
| ByteOrder.WrapDigits | common.c:397-413 | Taking the residue modulo 2^32 of a 32-bit value and converting it back to `int` gives the value. |
| ByteOrder.LongBytes | common.c:266-275 | For an `int`, the value rebuilt from its four stored bytes, with 32-bit wrap-around, is the value itself. |
| ByteOrder.LongRoundTrip | common.c:397-413 | Decoding the four little-endian bytes of any `int` gives it back. |
| ByteOrder.LongBytesRoundTrip | common.c:397-413 | Every 4-byte sequence is the little-endian encoding of the `int` it decodes to. |
| ByteOrder.ShortSwap | common.c:174-182 | The result is a short whose two little-endian bytes are the argument's, swapped. |
| ByteOrder.ShortNoSwap | common.c:184-187 | The short comes back unchanged: a short whose two little-endian bytes are the argument's, in place. |
| ByteOrder.LongSwap | common.c:189-199 | The result is an `int` whose four little-endian bytes are the argument's, in reverse order. |
| ByteOrder.LongNoSwap | common.c:201-204 | The `int` comes back unchanged: an `int` whose four little-endian bytes are the argument's, in place. |
| ByteOrder.FloatSwap | common.c:206-221 | The result's four bytes are the argument's in reverse order. |
| ByteOrder.FloatNoSwap | common.c:223-226 | The float comes back unchanged: its four bytes in place. |
| ByteOrder.ShortSwapInvolution | common.c:174-182 | Swapping a short twice gives it back. |
| ByteOrder.LongSwapInvolution | common.c:189-199 | Swapping an `int` twice gives it back. |
| ByteOrder.FloatSwapInvolution | common.c:206-221 | Swapping a float's bytes twice gives them back. |
| ByteOrder.ComInit | common.c:918-942 | `bigendian` is set exactly on a big-endian host. LittleLong is the identity on a little-endian host. In each Big/Little pair one function swaps and the other does not. |
| ByteOrder.ShortConversionsDecode | common.c:920-941 | On either host, a short loaded from memory bytes `m` is, after LittleShort, the little-endian value of `m`, and after BigShort the big-endian value of `m`. |
| ByteOrder.LongConversionsDecode | common.c:920-941 | On either host, an `int` loaded from memory bytes `m` is, after LittleLong, the little-endian value of `m`, and after BigLong the big-endian value of `m`. |
| ByteOrder.FloatConversionsDecode | common.c:920-941 | On either host, LittleFloat of a float in memory gives the float whose bit pattern, least significant byte first, is those bytes. BigFloat gives the one whose pattern is those bytes reversed. |
| ByteOrder.LittleLongEncodes | common.c:920-941 | On either host, LittleLong(x) held in memory is the little-endian encoding of x. |
| SizeBuffer.GetSpaceRule | common.c:541-562 | Space that fits is granted at the old size. Otherwise the request is fatal exactly when overflow is not allowed or it exceeds the whole buffer; else the buffer is cleared and the space is granted at 0. Granted space always ends within `maxsize`. |
| SizeBuffer.SizeBuf.Alloc | common.c:521-529 | On a zero-initialised `sizebuf_t`: the capacity is the start size, raised to at least 256, and the buffer is empty. SZ_Alloc does not touch the overflow flags, which keep their zero values. |
| SizeBuffer.SizeBuf.Clear | common.c:536-539 | The buffer becomes empty; capacity and flags are unchanged. |
| SizeBuffer.SizeBuf.Free | common.c:531-534 | Like SZ_Clear: the buffer becomes empty. |
| SizeBuffer.SizeBuf.GetSpace | common.c:541-562 | The outcome follows GetSpaceRule. A grant makes the size the offset plus the length and records an overflow in `overflowed`. A fatal request changes nothing. `cursize <= maxsize` is kept. |
| SizeBuffer.SizeBuf.Write | common.c:564-567 | The contents become the old contents followed by the bytes, or just the bytes after an overflow clear. A fatal request leaves the contents as they were. |
| SizeBuffer.SizeBuf.Print | common.c:569-580 | The grant is GetSpaceRule's for the text and its 0, or for the text alone when the buffer ends in 0, so the print fails exactly when SZ_GetSpace would. The underrun happens exactly when the buffer ended in 0 and the grant cleared it. Without overflow, the contents become PrintedContents of the old contents and the text. After an overflow they are the text and one 0, except in the underrun case, which loses the text's first byte. A fatal request changes nothing. |
| SizeBuffer.SizeBuf.OverwriteTerminator | common.c:578-579 | The grant is GetSpaceRule's for the text's length. When the buffer ends in 0, the text replaces that 0 and is followed by one 0. After an overflow clear, the first byte of the text falls before the buffer. |
| SizeBuffer.PrintEndsWithText | common.c:569-580 | After SZ_Print the buffer ends with the text and exactly one 0. |
| SizeBuffer.PrintsConcatenate | common.c:569-580 | Two prints in a row leave the same contents as one print of the joined text, so repeated prints form one NUL-terminated string. |
| SizeBuffer.PrintStart | common.c:576-579 | The offset SZ_Print copies to, as written: the copy always ends within `maxsize`. |
| SizeBuffer.PrintUnderrunWitness | common.c:579 | A full 256-byte buffer ending in 0, with overflow allowed, printed a one-character text, makes the copy start at offset -1. |
| SizeBuffer.PrintStartIntended | common.c:576-579 | The corrected offset is never negative, ends within `maxsize` and, without overflow, overwrites the old terminator. |
| Message.StringLayout | common.c:292-298 | A written string is its bytes and one 0; a null pointer writes a single 0. |
| Message.FloatLayoutIsBits | common.c:277-290 | On either host MSG_WriteFloat puts the float's bit pattern on the wire, least significant byte first. |
| Message.WriteChar | common.c:241-247 | The contents gain the byte of `c`, after a clear on overflow. The grant follows GetSpaceRule for 1 byte. A grant sets `overflowed` when it cleared the buffer; a fatal request leaves contents and flag alone. |
| Message.WriteByte | common.c:249-255 | The contents gain the byte of `c`, after a clear on overflow. A grant sets `overflowed` when it cleared the buffer; a fatal request leaves contents and flag alone. |
| Message.WriteShort | common.c:257-264 | The contents gain the two little-endian bytes of `c`. A grant sets `overflowed` when it cleared the buffer; a fatal request leaves contents and flag alone. |
| Message.WriteLong | common.c:266-275 | The contents gain the four little-endian bytes of `c`. A grant sets `overflowed` when it cleared the buffer; a fatal request leaves contents and flag alone. |
| Message.WriteFloat | common.c:277-290 | The contents gain the float's bit pattern, least significant byte first. A grant sets `overflowed` when it cleared the buffer; a fatal request leaves contents and flag alone. |
| Message.WriteString | common.c:292-298 | The contents gain the string and its 0 (a lone 0 for NULL). A grant sets `overflowed` when it cleared the buffer; a fatal request leaves contents and flag alone. |
| Message.NulFromStops | common.c:455-456 | The `strnlen` scan ends at the first 0 from the cursor, or at the end when no 0 is left. |
| Message.NulFromUnique | common.c:455-456 | Those two facts determine the scan's result. |
| Message.NulFrom | common.c:455-456 | The first 0 from the cursor lies between the cursor and the end of the committed data. |
| Message.ReadFloatIsWireBits | common.c:415-440 | On either host MSG_ReadFloat returns the float whose bit pattern is the four wire bytes, least significant first. |
| Message.CharRoundTrip | common.c:353-360 | A char written anywhere in a buffer reads back as the same value, one byte further on. |
| Message.ByteRoundTrip | common.c:362-369 | A byte written anywhere in a buffer reads back as the same value, one byte further on. |
| Message.ShortWireRoundTrip | common.c:381-395 | A short reads back as the same value, two bytes further on. |
| Message.LongWireRoundTrip | common.c:397-413 | An `int` reads back as the same value, four bytes further on. |
| Message.FloatWireRoundTrip | common.c:415-440 | A float written on one host reads back on any host with the same bit pattern, four bytes further on. |
| Message.StringRoundTrip | common.c:442-472 | A written string reads back as the same bytes and the cursor moves past its 0. |
| Message.NullStringRoundTrip | common.c:292-298 | A null string reads back as "" and the cursor moves one byte. |
| Message.FieldRoundTrip | common.c:241-298 | Any in-range value of any kind, written anywhere, reads back with its own reader at its own width. |
| Message.CharFieldRoundTrip | common.c:241-247 | FieldRoundTrip for chars. |
| Message.ByteFieldRoundTrip | common.c:249-255 | FieldRoundTrip for bytes. |
| Message.ShortFieldRoundTrip | common.c:257-264 | FieldRoundTrip for shorts. |
| Message.LongFieldRoundTrip | common.c:266-275 | FieldRoundTrip for longs. |
| Message.FloatFieldRoundTrip | common.c:277-290 | FieldRoundTrip for floats. |
| Message.StringFieldRoundTrip | common.c:292-298 | FieldRoundTrip for strings. |
| Message.RoundTripWith | common.c:241-472 | If every field reads back on its own, a whole series of fields written in order reads back in order. |
| Message.MessageRoundTrip | common.c:241-472 | A message of in-range fields reads back, field by field, as exactly those fields, ending just past the last one. |
| Message.CursorInvariant | common.c:346-472 | No series of reads clears `badread`, moves `readcount` back or past the committed size. |
| Message.ExhaustedStaysExhausted | common.c:346-472 | Once `readcount` is at the end, it stays there, and any further read sets `badread`. |
| Message.FailedWideReadExhausts | common.c:391-394 | A short, long or float read without enough bytes moves `readcount` to the end, so a later byte read fails too. |
| Message.ByteReadAfterUnterminatedString | common.c:457-470 | An unterminated string returns its bytes and leaves `readcount` in place, so a byte read after it still succeeds. |
| Message.StringAfterBadReadIsEmpty | common.c:447-450 | Once `badread` is set, a string read returns "" and leaves the cursor alone. |
| Message.MsgReader.BeginReading | common.c:346-350 | The cursor is reset: position 0, no bad read. |
| Message.MsgReader.ReadChar | common.c:353-360 | Value and new cursor are ReadCharF's: the signed byte at the cursor, or -1 and `badread` with the position unchanged. |
| Message.MsgReader.ReadByte | common.c:362-369 | The unsigned byte at the cursor, or -1 and `badread` with the position unchanged. |
| Message.MsgReader.PeekByte | common.c:372-379 | The unsigned byte at the cursor without moving, or -1 and `badread`. |
| Message.MsgReader.ReadShort | common.c:381-395 | The short at the cursor, or -1 with the position clamped to the end and `badread` set. |
| Message.MsgReader.ReadLong | common.c:397-413 | The `int` at the cursor, or -1 with the position clamped to the end and `badread` set. |
| Message.MsgReader.ReadFloat | common.c:415-440 | The float at the cursor, or -1.0 with the position clamped and `badread` set. |
| Message.MsgReader.ScanString | common.c:455-456 | The scan's length reaches the first 0 from the cursor, or the end. |
| Message.MsgReader.ReadString | common.c:442-472 | Value and cursor are ReadStringF's. The scratch buffer never shrinks and, when it grows, it grows to the string's length plus one. After an unterminated read it holds the bytes returned. |
| Pak.CountCheckGap | common.c:1550-1553 | With a 32-bit `size_t`, the C count check accepts every directory the corrected check does, plus exactly the lengths 131073..131135. |
| Pak.SizeT | common.c:1550 | `dirlen` converted to a 32-bit `size_t` for the division: the value is below 2^32. |
| Pak.CountAsWrittenMeans | common.c:1550-1553 | The C count check, with a 32-bit `size_t`, accepts exactly the lengths from 0 up to `info` plus one record; a negative length converts to at least 2^31 bytes and is refused. |
| Pak.DirectoryOverrunsInfo | common.c:1552-1558 | Some 32-bit `dirlen` passes the count check yet is longer than the 131072-byte `info` array it is read into. |
| Pak.CorrectedCount | common.c:1550-1553 | Under the corrected check the C division gives the number of whole records, at most MAX_FILES_IN_PACK. |
| Pak.Entries | common.c:1569-1574 | A directory has one entry per whole 64-byte record. |
| Pak.EntriesIndex | common.c:1569-1574 | Entry `i` is the decoding of record `i`, so entries keep file order. |
| Pak.ParsePackCases | common.c:1538-1586 | Each outcome exactly: NULL when the file does not open; "not a packfile" for a short header or a wrong tag; "too many files" when the directory does not fit `info`; "can't read directory" when `dirlen > 0` and the file holds fewer than `dirlen` bytes where the read starts. Otherwise the pack holds the entries of the bytes read, `dirlen / 64` of them and at most 2048, and is modified by the count-and-CRC rule. |
| Pak.GapLoadsAsWritten | common.c:1550-1559 | The C loader and the corrected one differ exactly on a header whose `dirlen` is 131073..131135. There the corrected one says "too many files", and the C one loads 2048 entries when the file holds the bytes and says "can't read directory" otherwise. |
| Pak.EmptyDirectoryLoads | common.c:1557-1559 | A `dirlen` of 0 loads an empty pack wherever `dirofs` points, even past the end of the file, since a read of 0 bytes returns 0. |
| Pak.ReadStart | common.c:1557 | The read starts at `dirofs`, or, when the seek refuses a negative offset, just after the header. |
| Pak.DirectoryRead | common.c:1558-1559 | The read succeeds exactly when `dirlen` is 0 or the file holds `dirlen` bytes from the start, and then gives exactly those bytes. |
| Pak.ReadDirectory | common.c:1557-1559 | The seek, the `fread` count and the all-bytes test give DirectoryRead at ReadStart. |
| Pak.CountAccepted | common.c:1550-1553 | A directory either count check accepts is shorter than `info` plus one record. |
| Pak.DirectoryRecord | common.c:1569-1574 | Record `i` of a directory built from entries is entry `i`'s record. |
| Pak.RecordRoundTrip | common.c:1569-1574 | Decoding the record of an entry gives the entry back: name, offset and length. |
| Pak.EntriesRoundTrip | common.c:1569-1574 | A directory built from entries parses back to exactly those entries, in order. |
| Pak.PackRoundTrip | common.c:1527-1586 | A pack file built from at most 2048 entries, with its directory after the header and `dirofs` pointing at it or negative, loads as exactly those entries, in order. It is marked modified by the count-and-CRC rule. |
| Pak.ParseWellFormed | common.c:1527-1586 | A pack whose header passes the checks and whose directory is on file loads as that directory's entries. It is modified exactly when the count is not 339 and the CRC is none of the three originals. |
| Pak.LoadPackFile | common.c:1527-1586 | The loader, with its header, seek, read, CRC and record loops, gives ParsePack's outcome: NULL, a fatal error, or the entries and the modified flag. |
| Pak.DirectoryCrc | common.c:1561-1564 | The CRC is taken over every directory byte, in order. |
| Pak.ReadEntries | common.c:1569-1574 | A new array holds the decoded entries, in record order. |
| FileSystem.FreeSlotMeans | common.c:992-1001 | Sys_FindHandle gives the first free slot from 1, and fails exactly when slots 1..99 are all in use. |
| FileSystem.FirstFree | common.c:994-996 | The first free slot from `k`: every slot before it is in use, and it is free unless it is past the table. |
| FileSystem.TakenMeans | common.c:992-1001 | Handles taken one after another by Sys_FindHandle are distinct slots from 1, each free at the start, and the table afterwards marks exactly the start's slots and them as used. |
| FileSystem.OpenNext | common.c:1016-1038 | Taking the first free slot for one more pack extends the record of handles taken in order by that slot. |
| FileSystem.PackHandlesAppend | common.c:1611-1637 | The pack handles of a path, in the order they were opened, are those of its rear part, then those of its front part. |
| FileSystem.FirstNamed | common.c:1256-1259 | The pack scan stops at the first entry whose name is the one sought. |
| FileSystem.Lookup | common.c:1249-1339 | A directory hit names a file that exists. |
| FileSystem.LookupIsFirstHit | common.c:1249-1339 | The lookup is the hit of the first element, from the head, that holds the name. It is "not found" exactly when no element holds it. |
| FileSystem.LookupAppend | common.c:1249-1339 | Elements in front shadow the ones behind: a hit in the front part wins, otherwise the back part decides. |
| FileSystem.GatedNeverInDir | common.c:1286-1290 | Unregistered, a name with '/' or '\\' is never found in a directory; packs are still searched. |
| FileSystem.PakNames | common.c:1629 | The packs of a directory are named `<dir>/pak0.pak`, `<dir>/pak12.pak` and so on. |
| FileSystem.NextPathId | common.c:1610-1613 | A new mount's path id is an `unsigned int`: 1 on an empty path, the head's shifted left otherwise. |
| FileSystem.MountGrow | common.c:1627-1638 | Prepending the next pack extends a mount by one pack. |
| FileSystem.MountIsMounted | common.c:1597-1639 | One COM_AddGameDirectory that stopped at the first missing pack is a whole mount over the old path, and what it added is its directory and packs. |
| FileSystem.MountedCompose | common.c:1597-1639 | Mounts made on top of mounts are mounts over the first path, and what they add is the later additions in front of the earlier ones. |
| FileSystem.MountModified | common.c:1566-1567 | A mount holds a pack that counts as modified exactly when one of the directory's packs does. |
| FileSystem.ExtendsNothing | common.c:1692-1750 | Mounting nothing adds no elements, takes no handle and leaves `com_modified`. |
| FileSystem.ExtendsCompose | common.c:1692-1750 | Two series of mounts in a row are one series: the handles taken by both are the first's then the second's, and `com_modified` collects the modified packs of both. |
| FileSystem.MountOrder | common.c:1597-1639 | When some pack of a mount holds the name, the lookup through the mount and anything behind it is the hit of the first such element, pak `n-1-k`: no higher-numbered pack holds the name, so the highest pack holding it wins over lower packs and the directory. |
| FileSystem.DirNamesOfMount | common.c:1597-1639 | A mount adds exactly one directory to the search path; the rest are packs. |
| FileSystem.MountNames | common.c:1597-1639 | After COM_AddGameDirectory the directories on the path are the new one, then the old ones. |
| FileSystem.Both | common.c:1692-1694 | A game name is mounted under the base directory, then under the home directory when there is one, so the home copy is searched first. |
| FileSystem.MissionSteps | common.c:1696-1722 | The four mission-pack steps, each prepending its mounts, leave the directories MissionDirs lists. |
| FileSystem.SearchSteps | common.c:1692-1750 | id1, the mission packs, then `-mod` and `-game`, each prepending, give SearchDirs: later mounts are searched first. |
| FileSystem.PakPathIsPack | common.c:1773 | A `-path` argument like `pak0.pak` is loaded as a pack. |
| FileSystem.DotPrefixedPakIsDir | common.c:1773 | Because the extension starts at the first '.', `./pak0.pak` is taken for a directory. |
| FileSystem.FileSystem.constructor | common.c:989-990 | All handles are free and the search path is empty. |
| FileSystem.FileSystem.FindHandle | common.c:992-1001 | The first free slot from 1, or none. |
| FileSystem.FileSystem.FileOpenRead | common.c:1016-1038 | With no free slot it is fatal. An existing file takes the first free slot and returns its size. A missing one gives -1 and takes no slot. |
| FileSystem.FileSystem.FileClose | common.c:1055-1059 | Exactly that handle becomes free. |
| FileSystem.FileSystem.LoadPack | common.c:1527-1586 | A missing file gives no pack and leaves handles and flag alone. A bad pack is fatal. A good one holds the first free handle and its entries, and sets `com_modified` when the pack counts as modified. |
| FileSystem.FileSystem.AddGameDirectory | common.c:1597-1639 | The directory, with the next path id, then pak0, pak1, … are prepended until the first pack that does not exist. All share the id. `com_gamedir` is the directory. `com_modified` is set when one of the packs counts as modified. The packs take free handles one after another, each the first free slot at its load, and the table marks exactly those as used. |
| FileSystem.FileSystem.PushDir | common.c:1610-1622 | The directory goes in front with the next path id. |
| FileSystem.FileSystem.NextPack | common.c:1629-1637 | Either the pack does not exist, and handles and `com_modified` are unchanged, or it is mounted with the mount's id on the first free handle, that handle alone becomes used, and `com_modified` is set when the pack counts as modified. |
| FileSystem.FileSystem.LookupLoop | common.c:1249-1339 | The walk's result is Lookup's. |
| FileSystem.FileSystem.FindInPack | common.c:1256-1259 | The index of the first entry with the name, or the count. |
| FileSystem.FileSystem.FindFile | common.c:1231-1346 | COM_OpenFile: not found gives -1 and -1. A pack hit gives the pack's handle, the entry's length and the path id. A directory hit opens the file on the first free handle and gives its size and path id. |
| FileSystem.FileSystem.CloseFile | common.c:1383-1392 | A pack's handle stays open; any other handle is closed. |
| FileSystem.FileSystem.MountBoth | common.c:1692-1694 | The directory list gains the base mount and then the home mount. `com_gamedir` is the last one mounted. The path is the old one with whole mounts in front (each directory with its packs and path id), the mounted packs took free handles in load order, and `com_modified` is also set exactly when a mounted pack counts as modified. |
| FileSystem.FileSystem.MountDir | common.c:1692 | One COM_AddGameDirectory adds one directory to the front of the list. The path is the old one with whole mounts in front (each directory with its packs and path id), the mounted packs took free handles in load order, and `com_modified` is also set exactly when a mounted pack counts as modified. |
| FileSystem.FileSystem.ApplyPath | common.c:1767-1782 | `-path` replaces the search path by one element per argument, the last argument first. A `.pak` argument becomes a pack, anything else a directory. |
| FileSystem.FileSystem.PathElement | common.c:1772-1780 | One `-path` argument: a pack when its extension is "pak" (fatal if it does not load), a directory otherwise. |
| FileSystem.FileSystem.PathOverride | common.c:1763-1784 | Without `-path` nothing changes, handles included. With it `com_modified` is set and, on success, the path is the one ApplyPath builds. |
| FileSystem.FileSystem.InitFilesystem | common.c:1647-1785 | `com_basedir` is `-basedir` or the host's, without a trailing separator. Without `-path` the directories searched are SearchDirs in order, `com_gamedir` is the first, and the whole path is whole mounts with the handles and `com_modified` as for MountGameDirs. `-path` sets the path from its arguments. `-mod`, `-game` and `-path` set `com_modified`. |
| FileSystem.FileSystem.MountGameDirs | common.c:1692-1750 | The directories mounted are exactly SearchDirs, the first of them is `com_gamedir`, and `-mod` or `-game` sets `com_modified`. The whole path is made of whole mounts, with the handles and the modified packs as for MountDir. |
| FileSystem.FileSystem.MountMissionPacks | common.c:1696-1722 | The mission packs whose flags are present are mounted in front, in order. The path is the old one with whole mounts in front (each directory with its packs and path id), the mounted packs took free handles in load order, and `com_modified` is also set exactly when a mounted pack counts as modified. |
| FileSystem.FileSystem.MountMods | common.c:1730-1750 | `-mod` and then `-game` are mounted in front and set `com_modified`. The path is the old one with whole mounts in front (each directory with its packs and path id), the mounted packs took free handles in load order, and `com_modified` is also set exactly when a mounted pack counts as modified. |
| FileSystem.FileSystem.MountIf | common.c:1696-1701 | A mission pack is mounted only when its flag is present. The path is the old one with whole mounts in front (each directory with its packs and path id), the mounted packs took free handles in load order, and `com_modified` is also set exactly when a mounted pack counts as modified. |
| FileSystem.FileSystem.MountValue | common.c:1730-1737 | A `-mod`/`-game` value is mounted, under base and home, only when the flag is followed by a value, and then sets `com_modified`. The path is the old one with whole mounts in front (each directory with its packs and path id), the mounted packs took free handles in load order, and `com_modified` is also set exactly when a mounted pack counts as modified. |
| FileSystem.ModValue | common.c:1730-1731 | The value after a flag, when the flag is present and not last. |
| FileSystem.PathArgs | common.c:1768-1771 | The arguments after `-path`, up to the end or one starting with '+' or '-'. |
| Parse.SkipBlanks | common.c:714-719 | Skips exactly the run of bytes that are blank as a signed `char`, stopping at a 0 or a non-blank. |
| Parse.SkipLine | common.c:724-725 | A comment runs to the newline or the end of the text. |
| Parse.SkipWhite | common.c:713-727 | Either the end of the text, or the first position that is neither blank nor the start of a `//` comment. |
| Parse.QuoteEnd | common.c:733-744 | A quoted token runs to the next '"' or the end, without a 0 or '"' inside it. |
| Parse.WordEnd | common.c:757-766 | A word runs to the first blank or one of `{ } ( ) '`; ':' does not end it. |
| Parse.ParseAdvances | common.c:701-770 | A returned position is past the start and inside the text, so repeated calls walk through it. |
| Parse.ParseNullCases | common.c:709-741 | NULL exactly at the end of the text or on an unterminated quote. At the end the token is empty. |
| Parse.WordTokenShape | common.c:757-768 | A word token is non-empty and holds no blank and no word break. |
| Parse.WordRoundTrip | common.c:757-769 | A word on its own parses as exactly itself, ending at the end. |
| Parse.QuotedRoundTrip | common.c:731-741 | `"t"` parses as `t`, whatever follows, and resumes after the closing quote. |
| Parse.SingleRoundTrip | common.c:747-753 | Each of `{ } ( ) ' :` at the start of the text is a one-character token, and parsing resumes right after it. |
| Parse.HostPortIsOneToken | common.c:763-764 | `h:1` is one token. |
| Parse.CommentIsSkipped | common.c:722-726 | `// c` then a newline and `foo` yields `foo`. |
| Parse.UnterminatedQuote | common.c:737-740 | `"ab` returns NULL, with `ab` left in `com_token`. |
| Parse.HighBytesAreBlank | common.c:714 | A byte of 128 or more is negative as a `char`, and so is skipped as white space. |
| Parse.Tokenizer.constructor | common.c:52 | `com_token` has 1024 bytes. |
| Parse.Tokenizer.Parse | common.c:701-770 | The returned position is ParseOf's, and `com_token` holds its token followed by a 0. |
| Parse.Tokenizer.ReadToken | common.c:731-769 | From a non-white position: the position and the 0-terminated token of a quoted string, a single character or a word. |
| Parse.Tokenizer.SkipWhiteLoop | common.c:713-727 | The white-space loop finds SkipWhite's position. |
| Parse.Tokenizer.BlankRun | common.c:714-719 | The blank loop stops where SkipBlanks does. |
| Parse.Tokenizer.LineRun | common.c:724-725 | The comment loop stops where SkipLine does. |
| Parse.Tokenizer.CopyQuoted | common.c:733-744 | The quoted bytes are copied into `com_token`, up to the closing quote or the end. |
| Parse.Tokenizer.CopyWord | common.c:757-766 | The word's bytes are copied into `com_token`. |
| Paths.FirstIndex | common.c:612-613 | The first index of a character, or the length. |
| Paths.ScanBack | common.c:647-650 | The backward scan stops at the last stop character at or before `j`, or at index 0. |
| Paths.StrNLen | common.c:150-155 | Q_strnlen: the index of the first 0, capped at `maxlen`. |
| Paths.SkipPathOf | common.c:591-603 | The part after the last '/': no '/' follows the returned index, and a '/' precedes it. |
| Paths.SkipPath | common.c:591-603 | The loop gives SkipPathOf. |
| Paths.StripExtension | common.c:610-615 | The loop gives the name up to its first '.'. |
| Paths.FileExtension | common.c:622-636 | The loop gives at most 7 characters after the first '.', or "". |
| Paths.StemAndExtension | common.c:610-636 | The stem has no '.'. The extension has at most 7 characters. Stem and extension rebuild the name when the extension is not cut. The stem is the whole name exactly when there is no '.'. |
| Paths.UnknownModelShape | common.c:653 | "?model?" has 7 characters and no separator. |
| Paths.FileBaseShape | common.c:643-666 | COM_FileBase gives at most 31 characters and no separator: a piece of the name followed by a '.' (unless cut to 31), or "?model?". |
| Paths.FileBase | common.c:643-666 | The loops give FileBaseOf. |
| Paths.LastDot | common.c:647-648 | The first loop stops at the last '.', or at index 0. |
| Paths.LastSeparator | common.c:650-651 | The second loop stops at the last separator before that, or at index 0. |
| Paths.HasExtensionMeans | common.c:674-691 | The path counts as having an extension exactly when some '.' after index 0 has no '/' after it. |
| Paths.DefaultExtension | common.c:674-691 | The extension is appended exactly when the path has none. |
| Args.CheckParmOf | common.c:781-794 | The first index from 1 holding the parameter, or 0 when none does. |
| Args.CheckParmFrom | common.c:785-792 | The scan from index `from`: 0 when no later argument is the parameter, otherwise the first index holding it. |
| Args.CheckParm | common.c:781-794 | The loop gives CheckParmOf. |
| Args.JoinedIsSpaced | common.c:851-864 | The arguments, each followed by a space, are the space-separated arguments plus one final space. |
| Args.CmdLineFits | common.c:851-867 | The rebuilt command line has at most 255 characters. |
| Args.CmdLineOfShortArgs | common.c:851-867 | When everything fits, the command line is the arguments separated by single spaces. |
| Args.LargvBounds | common.c:873-891 | `largv` holds at most 55 arguments. With `-safe` among the first 50, every safe-mode switch is then found by COM_CheckParm. |
| Args.FlagsRelations | common.c:894-909 | `-quoth` implies `hipnotic`. `standard_quake` stays set exactly when none of `-rogue`, `-hipnotic`, `-quoth` is given. |
| Args.CommandLine.constructor | common.c:56-57 | `com_cmdline` is 256 zero characters and the flags have their initial values. |
| Args.CommandLine.InitArgv | common.c:843-910 | `com_cmdline` holds CmdLineOf and a 0; `com_argv` is LargvOf; the flags are FlagsOf. |
| Args.CommandLine.FillCmdLine | common.c:851-867 | The buffer holds the command line CmdLineOf describes, then a 0. |
| Args.CommandLine.PutArg | common.c:853-863 | One argument and its space are copied, or the copy fills the 255 characters and stops. |
| Args.CommandLine.AppendArg | common.c:855-858 | As many characters of the argument as fit are copied after the text already there. |
| Args.CommandLine.DropTrailingSpace | common.c:866-867 | A final space is removed. |
| Args.CopyArgs | common.c:873-889 | The first 50 arguments, then the safe switches when `-safe` is among them. |
| FileList.CaseCompare | common.c:1818-1826 | `strcasecmp`'s sign; equal strings compare equal. |
| FileList.CaseCompareFlip | common.c:1818-1826 | Swapping the arguments flips the sign. |
| FileList.CaseCompareTrans | common.c:1818-1826 | The order is transitive. |
| FileList.InsertFrom | common.c:1824-1829 | The walk stops at the first later node not below the name. |
| FileList.InsertPos | common.c:1815-1832 | The node goes at the front exactly when the list is empty or the name is below the head. Otherwise it goes after every later node below the name and before the first one that is not. |
| FileList.AddContents | common.c:1800-1833 | A name already present leaves the list alone. Otherwise it goes in once, with the old names keeping their order around it. |
| FileList.AddMembers | common.c:1800-1833 | The names after adding are the old ones and the new one. |
| FileList.SortedInsert | common.c:1824-1832 | Inserting between a lower and a higher neighbour keeps the list sorted. |
| FileList.AddKeepsSorted | common.c:1800-1833 | Adding to a sorted list keeps it sorted. |
| FileList.CaseVariantsBothKept | common.c:1805-1809 | Duplicates are found by exact text, so "foo" and "FOO" are both kept. |
| FileList.ScanContents | common.c:1867-1893 | Scanning keeps the list sorted, keeps every old name, and adds exactly the names of the entries whose extension matches. |
| FileList.NameList.constructor | common.c:1800 | A new list is empty. |
| FileList.NameList.Add | common.c:1800-1833 | The list becomes AddOf of the old list and the name. |
| FileList.NameList.Clear | common.c:1840-1850 | The list becomes empty. |
| FileList.NameList.ScanPak | common.c:1867-1893 | Only the first extension is tried. Each matching entry adds its name after the last '/', without its extension when asked. |
| Links.Link.constructor | common.c:112-115 | A new node is a ring of its own. |
| Links.RotateRing | common.c:112-136 | A ring read from any of its nodes is still a ring. |
| Links.ClearLink | common.c:112-115 | The node becomes a ring of one. |
| Links.RemoveLink | common.c:117-121 | The other nodes close up into a ring without the node. The node keeps its old links. |
| Links.InsertLinkBefore | common.c:123-129 | The new node sits just before the given one, and the ring stays a ring. |
| Links.InsertLinkAfter | common.c:130-136 | The new node sits just after the given one, and the ring stays a ring. |

## Left out

- Floating point: MSG_WriteFloat and MSG_ReadFloat carry a float as its four-byte bit pattern; no float arithmetic is modelled.
- The coordinate and angle codecs (`MSG_WriteCoord*`, `MSG_WriteAngle*` and their readers) are floating-point arithmetic with rounding.
- IsTimeout uses the wall-clock time, and `va` formats with `vsnprintf` into rotating static buffers.
- COM_LoadFile and its wrappers choose an allocator and draw the disc icon.
- COM_CheckRegistered, COM_Path_f, COM_WriteFile, COM_CopyFile and COM_CreatePath are file I/O, and the Cvar, Cmd and console calls are other subsystems.
- `-cachedir` and the cache copy in COM_FindFile are file I/O. A directory hit is found on the disk map at the search path's own name.
- Sys_FileTime is replaced by "the path is in the disk map". Sys_FileSeek, Sys_FileRead and file positions are left out. A pack hit returns the entry's offset without seeking.
- The `FILE *` form of COM_FindFile (COM_FOpenFile) is left out, along with its "both or neither set" errors. FindFile models the handle form, COM_OpenFile.
- COM_InitFilesystem's creation of the game directory under the home directory (`COM_CreatePath`, `Sys_mkdir`) is file-system I/O.
- The CRC routine is not part of this model. It is a parameter: an initial value and a step function.
- COM_ScanDirFileList calls Sys_ScanDirFileList, which is not part of this model.
- screen.h has only declarations.
- NULL entries in `com_argv` are left out: an argument is always a string.
- Buffer sizes of `strcpy`/`sprintf` targets (`MAX_OSPATH`, `MAX_QPATH`, the 32-byte name in COM_ScanPakFileList, `com_gamedir`) are not checked.
- A pack name that fills all 56 bytes of its record without a 0 is read only up to the record's end. The C `strcpy` would run past it.
- Pak.SizeT: `size_t` is taken to be 32 bits wide (ILP32). With a 64-bit `size_t` a negative `dirlen` gives a negative count, which also passes the count check; that case is not modelled.
- Pak.CountCheckGap: the gap 131073..131135 is the one for a 32-bit `size_t`; with a 64-bit `size_t` the negative lengths pass the C check as well.
- Pak.LoadPackFile: applies the corrected count check, so a `dirlen` of 131073..131135 is "too many files" where common.c loads 2048 entries after writing past `info`. GapLoadsAsWritten states what common.c does there.
- Pak.ParsePackCases: states the loader with the corrected count check; the C check's extra lengths 131073..131135 are stated by GapLoadsAsWritten.
- FileSystem.FileSystem.LoadPack: uses ParsePack, so a pack with a `dirlen` of 131073..131135 is fatal here, while common.c loads it after the overrun.
- SizeBuffer.SizeBuf.Print: in the underrun case the byte written before the data array is not modelled. That byte is lost, and the buffer holds the rest of the text.
- Parse.Tokenizer.Parse requires the token to fit in `com_token`; nothing in the C code bounds that write.
- FileSystem.FileSystem.ApplyPath: element path ids are 0 as in the code. The elements' `filename` field for packs is not modelled, only the pack's own file name.
- FileSystem.FileSystem.InitFilesystem: with `-path`, `com_gamedir` keeps its value from the mounts, which the contract states. The handle table is only known to keep its size.
- The `link_t` functions are specified for a node that is in a ring (RemoveLink) or outside every ring (InsertLinkBefore, InsertLinkAfter). Other uses corrupt the rings and are not modelled.

## Behaviour worth noting

- MSG_ReadString on a string with no 0 before the end returns the bytes that are there, held in the scratch buffer; it does not return an empty string. It sets `badread` and leaves `readcount` where it was (common.c:457-471).
- Only MSG_ReadString looks at `badread`. After an unterminated MSG_ReadString, which sets `badread` but leaves `readcount` short of the end, a later char or byte read still succeeds (common.c:353-369, 457-471).
- SZ_GetSpace does not zero the space it grants, even after an overflow clear (common.c:541-562).
- COM_Parse on an unterminated quote returns NULL, but `com_token` holds the bytes read (common.c:737-740).
- COM_Parse compares a signed `char` with `' '`, so bytes of 128 and above are white space (common.c:714).

## Findings

| source | as written | input that shows it | evidently intended | confidence | as-written member | corrected member |
|---|---|---|---|---|---|---|
| common.c:1550-1558 | With a 32-bit `size_t`, the count check is `dirlen / 64 > MAX_FILES_IN_PACK`, then `dirlen` bytes are read into `info[MAX_FILES_IN_PACK]`. | `dirlen` = 131073 (any value in 131073..131135): the count is 2048 and passes, but the read writes up to 63 bytes past the 131072-byte `info` array. | Refuse any directory longer than `info`: `dirlen <= 2048 * 64`. | not executed | Pak.CountAcceptedAsWritten, Pak.DirectoryOverrunsInfo, Pak.GapLoadsAsWritten | Pak.DirectoryFits, Pak.CorrectedCount, Pak.CountCheckGap |
| common.c:579 | When the buffer ends in 0, the text is copied to `SZ_GetSpace(buf, len-1) - 1`. | A full 256-byte buffer ending in 0, with overflow allowed, and a one-character text: GetSpace clears the buffer and returns its start, so the copy begins one byte before the data. | Overwrite the old terminator only when it is still there after GetSpace: never write before the buffer. | not executed | SizeBuffer.PrintStart, SizeBuffer.PrintUnderrunWitness | SizeBuffer.PrintStartIntended |
