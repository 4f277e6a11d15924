/** The search path: the handle table, COM_LoadPackFile's use of it,
    COM_AddGameDirectory, COM_FindFile, COM_CloseFile and
    COM_InitFilesystem.

    The disk is a map from path to contents: a path is in the map exactly
    when `fopen` on it succeeds.  `com_searchpaths` is a sequence whose head
    is searched first; the handle table `sys_handles` is an array whose
    entry is true while the handle is open. */
module FileSystem {
  import opened CTypes
  import Pak
  import Paths
  import Args

  const MAX_HANDLES: nat := 100
  const GAMENAME: string := "id1"

  type Disk = map<string, seq<byte>>

  /** A loaded pack: its file name, the handle it keeps open, its entries. */
  datatype Pack = Pack(filename: string, handle: int, files: seq<Pak.PackFile>)

  /** A `searchpath_t`: a directory or a pack. */
  datatype SearchPath = Dir(pathId: int, filename: string) | PackPath(pathId: int, pack: Pack)

  /** The Sys_Error calls of this part. */
  datatype Error = OutOfHandles | BadPack(error: Pak.PackError) | CannotLoadPack(path: string)

  datatype Status = Ok | Fatal(error: Error)

  // ---------------------------------------------------------------------
  // The handle table

  /** The first index from `k` whose handle is free, or the end. */
  function FirstFree(hs: seq<bool>, k: nat): (i: nat)
    requires k <= |hs|
    ensures k <= i <= |hs|
    ensures forall j :: k <= j < i ==> hs[j]
    ensures i < |hs| ==> !hs[i]
    decreases |hs| - k
  {
    if k == |hs| || !hs[k] then k else FirstFree(hs, k + 1)
  }

  /** Sys_FindHandle: the first free slot from 1; `None` is "out of
      handles". */
  function FreeSlot(hs: seq<bool>): Option<nat>
    requires |hs| >= 1
  {
    var i := FirstFree(hs, 1);
    if i < |hs| then Some(i) else None
  }

  /** FreeSlot in plain terms: slot 0 is never handed out, and the slot is
      the lowest free one. */
  lemma FreeSlotMeans(hs: seq<bool>)
    requires |hs| >= 1
    ensures FreeSlot(hs).Some? ==>
      var h := FreeSlot(hs).value;
      1 <= h < |hs| && !hs[h] && forall j :: 1 <= j < h ==> hs[j]
    ensures FreeSlot(hs).None? <==> forall j :: 1 <= j < |hs| ==> hs[j]
  {
  }

  /** The free slots. */
  function FreeSet(hs: seq<bool>): set<nat>
  {
    set i: nat | 1 <= i < |hs| && !hs[i]
  }

  /** Taking a free slot leaves fewer free slots. */
  lemma TakeShrinks(hs: seq<bool>, slot: nat)
    requires 1 <= slot < |hs| && !hs[slot]
    ensures |FreeSet(hs[slot := true])| < |FreeSet(hs)|
  {
    var b := FreeSet(hs[slot := true]);
    assert FreeSet(hs) == b + {slot};
  }

  // ---------------------------------------------------------------------
  // The lookup rule of COM_FindFile

  /** The index of the first entry named `name`, or the end. */
  function FirstNamed(files: seq<Pak.PackFile>, name: string, k: nat): (i: nat)
    requires k <= |files|
    ensures k <= i <= |files|
    ensures forall j :: k <= j < i ==> files[j].name != name
    ensures i < |files| ==> files[i].name == name
    decreases |files| - k
  {
    if k == |files| || files[k].name == name then k else FirstNamed(files, name, k + 1)
  }

  /** The shareware gate: an unregistered game never looks for a name with
      a path separator in a directory. */
  predicate Gated(name: string, registered: bool)
  {
    !registered && ('/' in name || '\\' in name)
  }

  /** Where a lookup ends: not found, an entry of a pack (the pack's own
      handle, the data's offset and length), or a file in a directory. */
  datatype Found = NotFound | InPack(pathId: int, handle: int, filepos: int, filelen: int) | InDir(pathId: int, netpath: string)

  /** What one search path element holds of `name`. */
  function HitAt(sp: SearchPath, name: string, registered: bool, disk: Disk): Found
  {
    match sp
    case PackPath(id, p) =>
      var i := FirstNamed(p.files, name, 0);
      if i < |p.files| then InPack(id, p.handle, p.files[i].filepos, p.files[i].filelen) else NotFound
    case Dir(id, d) =>
      if Gated(name, registered) || d + "/" + name !in disk then NotFound else InDir(id, d + "/" + name)
  }

  /** COM_FindFile's walk: the first element, from the head, that holds the
      name. */
  function Lookup(sps: seq<SearchPath>, name: string, registered: bool, disk: Disk): (f: Found)
    ensures f.InDir? ==> f.netpath in disk
  {
    if sps == [] then NotFound
    else if HitAt(sps[0], name, registered, disk) != NotFound then HitAt(sps[0], name, registered, disk)
    else Lookup(sps[1..], name, registered, disk)
  }

  /** The lookup is the hit of the first element that has one, and
      NotFound exactly when no element has one. */
  lemma {:induction false} LookupIsFirstHit(sps: seq<SearchPath>, name: string, registered: bool, disk: Disk)
    returns (j: nat)
    ensures j <= |sps|
    ensures forall k :: 0 <= k < j ==> HitAt(sps[k], name, registered, disk) == NotFound
    ensures j < |sps| ==> Lookup(sps, name, registered, disk) == HitAt(sps[j], name, registered, disk) != NotFound
    ensures j == |sps| <==> Lookup(sps, name, registered, disk) == NotFound
  {
    if sps == [] {
      j := 0;
    } else if HitAt(sps[0], name, registered, disk) != NotFound {
      j := 0;
    } else {
      var j' := LookupIsFirstHit(sps[1..], name, registered, disk);
      j := j' + 1;
      forall k | 0 <= k < j ensures HitAt(sps[k], name, registered, disk) == NotFound {
        if k > 0 {
          assert sps[k] == sps[1..][k - 1];
        }
      }
    }
  }

  /** Elements in front win: a later mount, being prepended, is searched
      before everything mounted earlier. */
  lemma {:induction false} LookupAppend(a: seq<SearchPath>, b: seq<SearchPath>, name: string, registered: bool, disk: Disk)
    ensures Lookup(a + b, name, registered, disk) ==
      if Lookup(a, name, registered, disk) != NotFound then Lookup(a, name, registered, disk)
      else Lookup(b, name, registered, disk)
  {
    if a != [] {
      assert (a + b)[0] == a[0] && (a + b)[1..] == a[1..] + b;
      LookupAppend(a[1..], b, name, registered, disk);
    } else {
      assert a + b == b;
    }
  }

  /** With the shareware gate closed, a name with a separator comes only
      from a pack. */
  lemma {:induction false} GatedNeverInDir(sps: seq<SearchPath>, name: string, registered: bool, disk: Disk)
    requires Gated(name, registered)
    ensures !Lookup(sps, name, registered, disk).InDir?
  {
    if sps != [] {
      GatedNeverInDir(sps[1..], name, registered, disk);
    }
  }

  // ---------------------------------------------------------------------
  // Mounting a game directory

  function Digit(d: nat): char
    requires d < 10
  {
    ('0' as int + d) as char
  }

  /** `%i` of a non-negative number. */
  function Decimal(n: nat): (s: string)
    ensures |s| >= 1
  {
    if n < 10 then [Digit(n)] else Decimal(n / 10) + [Digit(n % 10)]
  }

  /** The name of the `i`th pack of a game directory. */
  function PakName(dir: string, i: nat): string
  {
    dir + "/pak" + Decimal(i) + ".pak"
  }

  lemma PakNames()
    ensures PakName("id1", 0) == "id1/pak0.pak"
    ensures PakName("id1", 12) == "id1/pak12.pak"
  {
  }

  /** Every path id is an `unsigned int`. */
  predicate ValidIds(sps: seq<SearchPath>)
  {
    forall j :: 0 <= j < |sps| ==> 0 <= sps[j].pathId < 0x1_0000_0000
  }

  lemma PrependId(sps: seq<SearchPath>, sp: SearchPath)
    requires ValidIds(sps) && 0 <= sp.pathId < 0x1_0000_0000
    ensures ValidIds([sp] + sps)
  {
    var n := [sp] + sps;
    forall j | 0 <= j < |n| ensures 0 <= n[j].pathId < 0x1_0000_0000 {
      if j > 0 {
        assert n[j] == sps[j - 1];
      }
    }
  }

  /** The path id a new game directory gets: the head's shifted left by
      one, or 1 for the first. */
  function NextPathId(sps: seq<SearchPath>): (id: int)
    requires ValidIds(sps)
    ensures 0 <= id < 0x1_0000_0000
  {
    if sps == [] then 1 else ShiftLeftUnsigned(sps[0].pathId)
  }

  /** What COM_LoadPackFile makes of the file at `path`. */
  function PackLoad(path: string, disk: Disk, crc: Pak.Crc): Pak.LoadResult
  {
    Pak.ParsePack(if path in disk then Some(disk[path]) else None, crc)
  }

  /** Whether `pak<i>.pak` of `dir` loads, and as what. */
  function PakLoad(dir: string, i: nat, disk: Disk, crc: Pak.Crc): Pak.LoadResult
  {
    PackLoad(PakName(dir, i), disk, crc)
  }

  /** The element for `pak<i>.pak` of `dir`. */
  predicate MountedPack(sp: SearchPath, dir: string, i: nat, id: int, disk: Disk, crc: Pak.Crc)
  {
    sp.PackPath? && sp.pathId == id && sp.pack.filename == PakName(dir, i) &&
    PakLoad(dir, i, disk, crc).Loaded? && sp.pack.files == PakLoad(dir, i, disk, crc).files
  }

  /** The elements one COM_AddGameDirectory adds: packs `n-1` down to 0,
      then the directory, all with the same path id. */
  predicate Mount(m: seq<SearchPath>, dir: string, id: int, n: nat, disk: Disk, crc: Pak.Crc)
  {
    |m| == n + 1 && m[n] == Dir(id, dir) &&
    forall j :: 0 <= j < n ==> MountedPack(m[j], dir, n - 1 - j, id, disk, crc)
  }

  lemma MountGrow(m: seq<SearchPath>, p: SearchPath, dir: string, id: int, n: nat, disk: Disk, crc: Pak.Crc)
    requires Mount(m, dir, id, n, disk, crc) && MountedPack(p, dir, n, id, disk, crc)
    ensures Mount([p] + m, dir, id, n + 1, disk, crc)
  {
    var m' := [p] + m;
    forall j | 0 <= j < n + 1 ensures MountedPack(m'[j], dir, n - j, id, disk, crc) {
      if j > 0 {
        assert m'[j] == m[j - 1];
      }
    }
  }

  /** Within one mount a pack beats the directory, and a higher-numbered
      pack beats a lower one: when some pack of the mount holds the name,
      the lookup is the hit of element `k`, pak`n-1-k`, and none of the
      packs numbered above it holds the name. */
  lemma MountOrder(m: seq<SearchPath>, rest: seq<SearchPath>, dir: string, id: int, n: nat,
                   disk: Disk, crc: Pak.Crc, name: string, registered: bool, j: nat)
    returns (k: nat)
    requires Mount(m, dir, id, n, disk, crc)
    requires j < n && HitAt(m[j], name, registered, disk) != NotFound
    ensures k <= j && MountedPack(m[k], dir, n - 1 - k, id, disk, crc)
    ensures forall i :: 0 <= i < k ==> HitAt(m[i], name, registered, disk) == NotFound
    ensures Lookup(m + rest, name, registered, disk) == HitAt(m[k], name, registered, disk)
    ensures Lookup(m + rest, name, registered, disk).InPack?
  {
    k := LookupIsFirstHit(m, name, registered, disk);
    assert k <= j;
    assert m[k].PackPath?;
    LookupAppend(m, rest, name, registered, disk);
  }

  /** Whether `pak<i>.pak` of `dir` counts as modified. */
  predicate PakModified(dir: string, i: nat, disk: Disk, crc: Pak.Crc)
  {
    PakLoad(dir, i, disk, crc).Loaded? && PakLoad(dir, i, disk, crc).modified
  }

  /** Whether one of the first `n` packs of `dir` counts as modified. */
  predicate AnyModified(dir: string, n: nat, disk: Disk, crc: Pak.Crc)
  {
    n > 0 && (AnyModified(dir, n - 1, disk, crc) || PakModified(dir, n - 1, disk, crc))
  }

  /** A search path that is a mount of `dir` with `i` packs in front of
      the elements `base`. */
  predicate MountedOver(sps: seq<SearchPath>, base: seq<SearchPath>, dir: string, id: int, i: nat,
                        disk: Disk, crc: Pak.Crc)
  {
    |sps| == i + 1 + |base| && sps[i + 1..] == base && Mount(sps[..i + 1], dir, id, i, disk, crc)
  }

  /** One more pack in front of a mount keeps the shape of the search path. */
  lemma {:induction false} PushPack(sps: seq<SearchPath>, base: seq<SearchPath>, sp: SearchPath, dir: string, id: int,
                 i: nat, disk: Disk, crc: Pak.Crc)
    requires MountedOver(sps, base, dir, id, i, disk, crc) && MountedPack(sp, dir, i, id, disk, crc)
    ensures MountedOver([sp] + sps, base, dir, id, i + 1, disk, crc)
  {
    ConsSlices(sp, sps, i + 1);
    MountGrow(sps[..i + 1], sp, dir, id, i, disk, crc);
  }

  /** Cutting a sequence with one more element in front. */
  lemma ConsSlices<T>(x: T, s: seq<T>, k: nat)
    requires k <= |s|
    ensures ([x] + s)[..k + 1] == [x] + s[..k]
    ensures ([x] + s)[k + 1..] == s[k..]
  {
    assert ([x] + s)[..k + 1] == [x] + s[..k];
  }

  // ---------------------------------------------------------------------
  // The handles the packs keep open

  /** The table after opening each of `slots`. */
  function Mark(hs: seq<bool>, slots: seq<int>): (r: seq<bool>)
    ensures |r| == |hs|
  {
    seq(|hs|, k requires 0 <= k < |hs| => hs[k] || k in slots)
  }

  /** Each of `slots`, in turn, is the slot Sys_FindHandle gives once the
      earlier ones are open. */
  predicate TakenInOrder(hs: seq<bool>, slots: seq<int>)
  {
    |hs| >= 1 &&
    forall i :: 0 <= i < |slots| ==>
      FreeSlot(Mark(hs, slots[..i])).Some? && FreeSlot(Mark(hs, slots[..i])).value == slots[i]
  }

  /** Slots taken one after the other were free, are distinct, are never
      slot 0, and are exactly the slots the table gains. */
  lemma TakenMeans(hs: seq<bool>, slots: seq<int>)
    requires TakenInOrder(hs, slots)
    ensures forall i :: 0 <= i < |slots| ==> 1 <= slots[i] < |hs| && !hs[slots[i]]
    ensures forall i, j :: 0 <= i < j < |slots| ==> slots[i] != slots[j]
    ensures forall k :: 0 <= k < |hs| ==> Mark(hs, slots)[k] == (hs[k] || k in slots)
  {
    forall i | 0 <= i < |slots|
      ensures 1 <= slots[i] < |hs| && !hs[slots[i]] && slots[i] !in slots[..i]
    {
      FreeSlotMeans(Mark(hs, slots[..i]));
      assert !Mark(hs, slots[..i])[slots[i]];
    }
    forall i, j | 0 <= i < j < |slots|
      ensures slots[i] != slots[j]
    {
      assert slots[i] == slots[..j][i];
    }
  }

  lemma MarkAppend(hs: seq<bool>, a: seq<int>, b: seq<int>)
    ensures Mark(hs, a + b) == Mark(Mark(hs, a), b)
  {
    forall k | 0 <= k < |hs| ensures Mark(hs, a + b)[k] == Mark(Mark(hs, a), b)[k] {
      assert (k in a + b) == (k in a || k in b);
    }
  }

  lemma TakenAppend(hs: seq<bool>, a: seq<int>, b: seq<int>)
    requires TakenInOrder(hs, a) && TakenInOrder(Mark(hs, a), b)
    ensures TakenInOrder(hs, a + b)
  {
    forall i | 0 <= i < |a + b|
      ensures FreeSlot(Mark(hs, (a + b)[..i])).Some? && FreeSlot(Mark(hs, (a + b)[..i])).value == (a + b)[i]
    {
      if i < |a| {
        assert (a + b)[..i] == a[..i] && (a + b)[i] == a[i];
      } else {
        assert (a + b)[..i] == a + b[..i - |a|] && (a + b)[i] == b[i - |a|];
        MarkAppend(hs, a, b[..i - |a|]);
      }
    }
  }

  /** The handles of the packs among `sps`, in the order they were opened:
      the pack nearest the tail first. */
  function PackHandles(sps: seq<SearchPath>): seq<int>
  {
    if sps == [] then [] else PackHandles(sps[1..]) + (if sps[0].PackPath? then [sps[0].pack.handle] else [])
  }

  lemma {:induction false} PackHandlesAppend(a: seq<SearchPath>, b: seq<SearchPath>)
    ensures PackHandles(a + b) == PackHandles(b) + PackHandles(a)
  {
    if a == [] {
      assert a + b == b;
    } else {
      assert (a + b)[0] == a[0] && (a + b)[1..] == a[1..] + b;
      PackHandlesAppend(a[1..], b);
    }
  }

  /** One more pack opened on the lowest free slot, in front of `top`. */
  lemma OpenNext(h0: seq<bool>, h: seq<bool>, top: seq<SearchPath>, sp: SearchPath)
    requires TakenInOrder(h0, PackHandles(top)) && h == Mark(h0, PackHandles(top))
    requires sp.PackPath? && FreeSlot(h).Some? && sp.pack.handle == FreeSlot(h).value
    ensures TakenInOrder(h0, PackHandles([sp] + top))
    ensures h[sp.pack.handle := true] == Mark(h0, PackHandles([sp] + top))
  {
    var t := [sp] + top;
    var s := [sp.pack.handle];
    assert t[0] == sp && t[1..] == top;
    assert PackHandles(t) == PackHandles(top) + s;
    FreeSlotMeans(h);
    assert Mark(h, []) == h;
    assert s[..0] == [];
    assert TakenInOrder(h, s);
    TakenAppend(h0, PackHandles(top), s);
    MarkAppend(h0, PackHandles(top), s);
    assert Mark(h, s) == h[sp.pack.handle := true];
  }

  // ---------------------------------------------------------------------
  // Whole mounts

  /** The part of `sps` in front of `base`. */
  function Above(sps: seq<SearchPath>, base: seq<SearchPath>): seq<SearchPath>
  {
    if |base| <= |sps| then sps[..|sps| - |base|] else []
  }

  lemma AboveCons(sp: SearchPath, sps: seq<SearchPath>, base: seq<SearchPath>)
    requires |base| <= |sps|
    ensures Above([sp] + sps, base) == [sp] + Above(sps, base)
  {
    assert ([sp] + sps)[..|sps| + 1 - |base|] == [sp] + sps[..|sps| - |base|];
  }

  /** The index of the first directory element from `k`, or the end. */
  function FirstDir(sps: seq<SearchPath>, k: nat): (i: nat)
    requires k <= |sps|
    ensures k <= i <= |sps|
    ensures forall j :: k <= j < i ==> sps[j].PackPath?
    ensures i < |sps| ==> sps[i].Dir?
    decreases |sps| - k
  {
    if k == |sps| || sps[k].Dir? then k else FirstDir(sps, k + 1)
  }

  /** `sps` is `base` with whole game directories mounted in front, each
      as COM_AddGameDirectory mounts it. */
  predicate Mounted(sps: seq<SearchPath>, base: seq<SearchPath>, disk: Disk, crc: Pak.Crc)
    decreases |sps|, 1
  {
    sps == base || MountStep(sps, base, disk, crc)
  }

  /** The front of `sps` is one whole mount over a mounted rest: the
      directory with the path id that follows the rest, and in front of it
      pak0.pak, pak1.pak, ... up to the first that does not exist. */
  predicate MountStep(sps: seq<SearchPath>, base: seq<SearchPath>, disk: Disk, crc: Pak.Crc)
    decreases |sps|, 0
  {
    var n := FirstDir(sps, 0);
    n < |sps| && ValidIds(sps[n + 1..]) && PakName(sps[n].filename, n) !in disk &&
    MountedOver(sps, sps[n + 1..], sps[n].filename, NextPathId(sps[n + 1..]), n, disk, crc) &&
    Mounted(sps[n + 1..], base, disk, crc)
  }

  lemma AboveSplit(a: seq<SearchPath>, mid: seq<SearchPath>, base: seq<SearchPath>)
    requires |mid| <= |a| && a[|a| - |mid|..] == mid
    requires |base| <= |mid| && mid[|mid| - |base|..] == base
    ensures a[|a| - |base|..] == base
    ensures Above(a, base) == Above(a, mid) + Above(mid, base)
  {
    assert a[|a| - |mid|..][|mid| - |base|..] == a[|a| - |base|..];
    assert a[..|a| - |mid|] + a[|a| - |mid|..][..|mid| - |base|] == a[..|a| - |base|];
  }

  lemma {:induction false} MountedSuffix(sps: seq<SearchPath>, base: seq<SearchPath>, disk: Disk, crc: Pak.Crc)
    requires Mounted(sps, base, disk, crc)
    ensures |base| <= |sps| && sps[|sps| - |base|..] == base
    decreases |sps|
  {
    if sps != base {
      assert MountStep(sps, base, disk, crc);
      var n := FirstDir(sps, 0);
      var rest := sps[n + 1..];
      assert Mounted(rest, base, disk, crc);
      MountedSuffix(rest, base, disk, crc);
      AboveSplit(sps, rest, base);
    }
  }

  /** Mounts made over mounts are mounts over the first base. */
  lemma {:induction false} MountedCompose(a: seq<SearchPath>, mid: seq<SearchPath>, base: seq<SearchPath>, disk: Disk, crc: Pak.Crc)
    requires Mounted(a, mid, disk, crc) && Mounted(mid, base, disk, crc)
    ensures Mounted(a, base, disk, crc)
    ensures Above(a, base) == Above(a, mid) + Above(mid, base)
    decreases |a|
  {
    if a != mid {
      assert MountStep(a, mid, disk, crc);
      var n := FirstDir(a, 0);
      MountedCompose(a[n + 1..], mid, base, disk, crc);
      StepOver(a, mid, base, disk, crc);
    }
    MountedSuffix(a, mid, disk, crc);
    MountedSuffix(mid, base, disk, crc);
    AboveSplit(a, mid, base);
  }

  /** The top mount stays a mount whatever the rest is mounted over. */
  lemma StepOver(a: seq<SearchPath>, mid: seq<SearchPath>, base: seq<SearchPath>, disk: Disk, crc: Pak.Crc)
    requires MountStep(a, mid, disk, crc)
    requires Mounted(a[FirstDir(a, 0) + 1..], base, disk, crc)
    ensures MountStep(a, base, disk, crc)
  {
  }

  /** One COM_AddGameDirectory that stopped at the first missing pack is a
      whole mount. */
  lemma MountIsMounted(sps: seq<SearchPath>, base: seq<SearchPath>, dir: string, n: nat, disk: Disk, crc: Pak.Crc)
    requires ValidIds(base)
    requires MountedOver(sps, base, dir, NextPathId(base), n, disk, crc) && PakName(dir, n) !in disk
    ensures Mounted(sps, base, disk, crc) && Above(sps, base) == sps[..n + 1]
  {
    var m := sps[..n + 1];
    forall j | 0 <= j < n ensures sps[j].PackPath? {
      assert sps[j] == m[j];
      assert MountedPack(m[j], dir, n - 1 - j, NextPathId(base), disk, crc);
    }
    assert sps[n] == m[n];
    assert FirstDir(sps, 0) == n;
    assert Mounted(base, base, disk, crc);
    assert MountStep(sps, base, disk, crc);
  }

  /** Whether a search path element is a pack that counts as modified. */
  predicate ElemModified(sp: SearchPath, disk: Disk, crc: Pak.Crc)
  {
    sp.PackPath? && PackLoad(sp.pack.filename, disk, crc).Loaded? && PackLoad(sp.pack.filename, disk, crc).modified
  }

  /** Whether one of the packs of `sps` counts as modified. */
  predicate PacksModified(sps: seq<SearchPath>, disk: Disk, crc: Pak.Crc)
  {
    sps != [] && (ElemModified(sps[0], disk, crc) || PacksModified(sps[1..], disk, crc))
  }

  lemma {:induction false} PacksModifiedAppend(a: seq<SearchPath>, b: seq<SearchPath>, disk: Disk, crc: Pak.Crc)
    ensures PacksModified(a + b, disk, crc) == (PacksModified(a, disk, crc) || PacksModified(b, disk, crc))
  {
    if a == [] {
      assert a + b == b;
    } else {
      assert (a + b)[0] == a[0] && (a + b)[1..] == a[1..] + b;
      PacksModifiedAppend(a[1..], b, disk, crc);
    }
  }

  /** The packs of one mount count as modified exactly when one of
      pak0.pak to pak`n-1`.pak does. */
  lemma {:induction false} MountModified(m: seq<SearchPath>, dir: string, id: int, n: nat, disk: Disk, crc: Pak.Crc)
    requires Mount(m, dir, id, n, disk, crc)
    ensures PacksModified(m, disk, crc) == AnyModified(dir, n, disk, crc)
    decreases n
  {
    if n == 0 {
      assert m == [Dir(id, dir)];
      assert !PacksModified(m[1..], disk, crc);
    } else {
      var m' := m[1..];
      assert Mount(m', dir, id, n - 1, disk, crc) by {
        forall j | 0 <= j < n - 1 ensures MountedPack(m'[j], dir, n - 2 - j, id, disk, crc) {
          assert m'[j] == m[j + 1];
        }
      }
      MountModified(m', dir, id, n - 1, disk, crc);
      assert MountedPack(m[0], dir, n - 1, id, disk, crc);
    }
  }

  /** What a run of COM_AddGameDirectory calls does to the state: `sps` is
      `base` with whole mounts in front; the handle table went from `h0` to
      `h1` by opening the new packs' handles one after the other, in the
      order they were loaded; and `com_modified` went from `m0` to `m1`,
      which is set exactly when `m0` is or one of the new packs counts as
      modified. */
  predicate Extends(sps: seq<SearchPath>, base: seq<SearchPath>, h0: seq<bool>, h1: seq<bool>, m0: bool, m1: bool,
                    disk: Disk, crc: Pak.Crc)
  {
    Mounted(sps, base, disk, crc) &&
    TakenInOrder(h0, PackHandles(Above(sps, base))) && h1 == Mark(h0, PackHandles(Above(sps, base))) &&
    m1 == (m0 || PacksModified(Above(sps, base), disk, crc))
  }

  lemma ExtendsNothing(sps: seq<SearchPath>, h: seq<bool>, m: bool, disk: Disk, crc: Pak.Crc)
    requires |h| >= 1
    ensures Extends(sps, sps, h, h, m, m, disk, crc)
  {
    assert Above(sps, sps) == [];
    assert Mark(h, []) == h;
  }

  /** Two runs of mounts, the second starting where the first ended, make
      one run; a flag set between them adds to `com_modified`. */
  lemma ExtendsCompose(a: seq<SearchPath>, mid: seq<SearchPath>, base: seq<SearchPath>,
                       h0: seq<bool>, h1: seq<bool>, h2: seq<bool>, m0: bool, m1: bool, f: bool, m2: bool,
                       disk: Disk, crc: Pak.Crc)
    requires Extends(mid, base, h0, h1, m0, m1, disk, crc)
    requires Extends(a, mid, h1, h2, m1 || f, m2, disk, crc)
    ensures Extends(a, base, h0, h2, m0 || f, m2, disk, crc)
  {
    MountedCompose(a, mid, base, disk, crc);
    PackHandlesAppend(Above(a, mid), Above(mid, base));
    TakenAppend(h0, PackHandles(Above(mid, base)), PackHandles(Above(a, mid)));
    MarkAppend(h0, PackHandles(Above(mid, base)), PackHandles(Above(a, mid)));
    PacksModifiedAppend(Above(a, mid), Above(mid, base), disk, crc);
  }

  // ---------------------------------------------------------------------
  // Directory names, in search order

  /** The directory elements' names, head first. */
  function DirNames(sps: seq<SearchPath>): seq<string>
  {
    if sps == [] then [] else (if sps[0].Dir? then [sps[0].filename] else []) + DirNames(sps[1..])
  }

  lemma {:induction false} DirNamesAppend(a: seq<SearchPath>, b: seq<SearchPath>)
    ensures DirNames(a + b) == DirNames(a) + DirNames(b)
  {
    if a != [] {
      assert (a + b)[0] == a[0] && (a + b)[1..] == a[1..] + b;
      DirNamesAppend(a[1..], b);
    } else {
      assert a + b == b;
    }
  }

  lemma {:induction false} DirNamesOfMount(m: seq<SearchPath>, dir: string, id: int, n: nat, disk: Disk, crc: Pak.Crc)
    requires Mount(m, dir, id, n, disk, crc)
    ensures DirNames(m) == [dir]
    decreases n
  {
    if n == 0 {
      assert m == [Dir(id, dir)];
      assert DirNames(m[1..]) == [];
    } else {
      var m' := m[1..];
      assert Mount(m', dir, id, n - 1, disk, crc) by {
        forall j | 0 <= j < n - 1 ensures MountedPack(m'[j], dir, n - 2 - j, id, disk, crc) {
          assert m'[j] == m[j + 1];
        }
      }
      DirNamesOfMount(m', dir, id, n - 1, disk, crc);
      assert MountedPack(m[0], dir, n - 1, id, disk, crc);
    }
  }

  // ---------------------------------------------------------------------
  // COM_InitFilesystem's choices

  /** The value after a `-flag value` pair, when the flag is present and not
      last. */
  function ParmValue(argv: seq<string>, flag: string): Option<string>
  {
    var i := Args.CheckParmOf(argv, flag);
    if i != 0 && i < |argv| - 1 then Some(argv[i + 1]) else None
  }

  /** `com_basedir`: `-basedir` or the host's, without one trailing
      separator. */
  function BasedirOf(argv: seq<string>, host: string): string
  {
    var b := match ParmValue(argv, "-basedir") case Some(v) => v case None => host;
    if |b| > 0 && (b[|b| - 1] == '\\' || b[|b| - 1] == '/') then b[..|b| - 1] else b
  }

  /** The directories one game name mounts, in search order: the home copy,
      when there is a home, comes first because it is mounted last. */
  function Both(base: string, home: Option<string>, sub: string): (ds: seq<string>)
    ensures |ds| >= 1 && ds[0] == if home.Some? then home.value + "/.fxquake/" + sub else base + "/" + sub
  {
    (if home.Some? then [home.value + "/.fxquake/" + sub] else []) + [base + "/" + sub]
  }

  function IfParm(argv: seq<string>, flag: string, ds: seq<string>): seq<string>
  {
    if Args.CheckParmOf(argv, flag) != 0 then ds else []
  }

  function IfValue(v: Option<string>, base: string, home: Option<string>): seq<string>
  {
    match v case Some(g) => Both(base, home, g) case None => []
  }

  /** The mounts of the mission packs `p1` to `p4`, each made when its
      flag `-<name>` is present, in search order (the last one first). */
  function MissionDirs(argv: seq<string>, base: string, home: Option<string>, p1: string, p2: string, p3: string, p4: string): seq<string>
  {
    IfParm(argv, "-" + p4, Both(base, home, p4))
      + IfParm(argv, "-" + p3, Both(base, home, p3))
      + IfParm(argv, "-" + p2, Both(base, home, p2))
      + IfParm(argv, "-" + p1, Both(base, home, p1))
  }

  /** Four mission-pack steps, each putting its mounts in front, make
      MissionDirs. */
  lemma MissionSteps(argv: seq<string>, base: string, home: Option<string>, p1: string, p2: string, p3: string, p4: string,
                     d0: seq<string>, d1: seq<string>, d2: seq<string>, d3: seq<string>, d4: seq<string>)
    requires d1 == IfParm(argv, "-" + p1, Both(base, home, p1)) + d0
    requires d2 == IfParm(argv, "-" + p2, Both(base, home, p2)) + d1
    requires d3 == IfParm(argv, "-" + p3, Both(base, home, p3)) + d2
    requires d4 == IfParm(argv, "-" + p4, Both(base, home, p4)) + d3
    ensures d4 == MissionDirs(argv, base, home, p1, p2, p3, p4) + d0
  {
    PrependFour(IfParm(argv, "-" + p1, Both(base, home, p1)), IfParm(argv, "-" + p2, Both(base, home, p2)),
                IfParm(argv, "-" + p3, Both(base, home, p3)), IfParm(argv, "-" + p4, Both(base, home, p4)), d0);
  }

  /** id1, the mission packs, then `-mod` and `-game`, each putting its
      mounts in front, make SearchDirs. */
  lemma SearchSteps(argv: seq<string>, base: string, home: Option<string>, d1: seq<string>, d2: seq<string>, d3: seq<string>)
    requires d1 == Both(base, home, GAMENAME) + []
    requires d2 == MissionDirs(argv, base, home, "rogue", "hipnotic", "quoth", "nehahra") + d1
    requires d3 == ModDirs(argv, base, home) + d2
    ensures d3 == SearchDirs(argv, base, home)
  {
    PrependThree(Both(base, home, GAMENAME), MissionDirs(argv, base, home, "rogue", "hipnotic", "quoth", "nehahra"),
                 ModDirs(argv, base, home));
  }

  lemma PrependThree(a1: seq<string>, a2: seq<string>, a3: seq<string>)
    ensures a3 + (a2 + (a1 + [])) == a3 + a2 + a1
  {
  }

  lemma PrependFour(a1: seq<string>, a2: seq<string>, a3: seq<string>, a4: seq<string>, d0: seq<string>)
    ensures a4 + (a3 + (a2 + (a1 + d0))) == a4 + a3 + a2 + a1 + d0
  {
  }

  /** The `-mod` and `-game` mounts, in search order. */
  function ModDirs(argv: seq<string>, base: string, home: Option<string>): seq<string>
  {
    IfValue(ParmValue(argv, "-game"), base, home) + IfValue(ParmValue(argv, "-mod"), base, home)
  }

  lemma ModSteps(argv: seq<string>, base: string, home: Option<string>, d0: seq<string>, d1: seq<string>, d2: seq<string>)
    requires d1 == IfValue(ParmValue(argv, "-mod"), base, home) + d0
    requires d2 == IfValue(ParmValue(argv, "-game"), base, home) + d1
    ensures d2 == ModDirs(argv, base, home) + d0
  {
    assert IfValue(ParmValue(argv, "-game"), base, home) + (IfValue(ParmValue(argv, "-mod"), base, home) + d0)
        == ModDirs(argv, base, home) + d0;
  }

  /** The directories COM_InitFilesystem mounts, in search order: id1, then
      its home copy, rogue, hipnotic, quoth, nehahra, `-mod`, `-game`, each
      later one in front. */
  function SearchDirs(argv: seq<string>, base: string, home: Option<string>): (ds: seq<string>)
    ensures |ds| >= 1
  {
    ModDirs(argv, base, home) + MissionDirs(argv, base, home, "rogue", "hipnotic", "quoth", "nehahra") + Both(base, home, GAMENAME)
  }

  /** The arguments after `-path`, up to the end or one that starts with
      '+' or '-'. */
  function PathRun(argv: seq<string>, from: nat): seq<string>
    decreases |argv| - from
  {
    if from >= |argv| || (|argv[from]| > 0 && (argv[from][0] == '+' || argv[from][0] == '-')) then []
    else [argv[from]] + PathRun(argv, from + 1)
  }

  /** The `-path` test for a pack: COM_FileExtension gives "pak". */
  predicate IsPakPath(a: string)
  {
    Paths.ExtensionOf(a) == "pak"
  }

  /** A pack named on `-path` is recognised by its extension. */
  lemma PakPathIsPack()
    ensures IsPakPath("pak0.pak")
  {
    var s := "pak0.pak";
    assert s[4] == '.';
    assert Paths.FirstIndex(s, '.') == 4;
    assert s[5] == 'p' && s[6] == 'a' && s[7] == 'k';
    assert s[5..8] == "pak";
  }

  /** The extension starts at the first '.', so "./pak0.pak" is taken for
      a directory. */
  lemma DotPrefixedPakIsDir()
    ensures !IsPakPath("./pak0.pak")
  {
    var t := "./pak0.pak";
    assert Paths.FirstIndex(t, '.') == 0;
    assert t[1..8] == "/pak0.p";
  }

  /** The element `-path` makes of one argument; both kinds get path id
      0. */
  predicate PathEntry(sp: SearchPath, a: string, disk: Disk, crc: Pak.Crc)
  {
    if IsPakPath(a) then
      sp.PackPath? && sp.pathId == 0 && sp.pack.filename == a &&
      PackLoad(a, disk, crc).Loaded? && sp.pack.files == PackLoad(a, disk, crc).files
    else sp == Dir(0, a)
  }

  /** `PathEntry` as a value, so that the lemmas below need not look
      inside it. */
  function EntryTest(disk: Disk, crc: Pak.Crc): (SearchPath, string) -> bool
  {
    (sp: SearchPath, a: string) => PathEntry(sp, a, disk, crc)
  }

  /** The elements `-path` makes, newest first: element `j` is the one
      for the `j`-th argument from the end. */
  predicate EntriesFor(ok: (SearchPath, string) -> bool, sps: seq<SearchPath>, run: seq<string>)
  {
    |sps| == |run| && forall j :: 0 <= j < |sps| ==> ok(sps[j], run[|run| - 1 - j])
  }

  /** The search path `-path` builds from the arguments `run`. */
  predicate PathEntries(sps: seq<SearchPath>, run: seq<string>, disk: Disk, crc: Pak.Crc)
  {
    EntriesFor(EntryTest(disk, crc), sps, run)
  }

  /** Putting the element for `run[i]` in front of the elements for
      `run[..i]` gives the elements for `run[..i + 1]`. */
  lemma PrependEntry(ok: (SearchPath, string) -> bool, sps: seq<SearchPath>, sp: SearchPath, run: seq<string>, i: nat)
    requires i < |run| && EntriesFor(ok, sps, run[..i]) && ok(sp, run[i])
    ensures EntriesFor(ok, [sp] + sps, run[..i + 1])
  {
    var n := [sp] + sps;
    forall j | 0 <= j < i + 1 ensures ok(n[j], run[..i + 1][i - j]) {
      if j > 0 {
        assert n[j] == sps[j - 1] && run[..i + 1][i - j] == run[..i][i - 1 - (j - 1)];
      }
    }
  }

  // ---------------------------------------------------------------------
  // The state

  class FileSystem {
    /** `sys_handles`: true while a handle is open. */
    const handles: array<bool>
    /** `com_searchpaths`, head first. */
    var searchpaths: seq<SearchPath>
    /** `com_modified` */
    var modified: bool
    /** `com_gamedir` */
    var gamedir: string
    /** `com_basedir` */
    var basedir: string

    ghost predicate Valid()
      reads this
    {
      handles.Length == MAX_HANDLES && ValidIds(searchpaths)
    }

    constructor ()
      ensures Valid() && fresh(handles)
      ensures forall i :: 0 <= i < handles.Length ==> !handles[i]
      ensures searchpaths == [] && !modified && gamedir == "" && basedir == ""
    {
      handles := new bool[MAX_HANDLES](_ => false);
      searchpaths := [];
      modified := false;
      gamedir := "";
      basedir := "";
    }

    /** Sys_FindHandle. */
    method FindHandle() returns (h: Option<nat>)
      requires handles.Length == MAX_HANDLES
      ensures h == FreeSlot(handles[..])
    {
      var i := 1;
      while i < MAX_HANDLES
        invariant 1 <= i <= MAX_HANDLES
        invariant FirstFree(handles[..], i) == FirstFree(handles[..], 1)
      {
        if !handles[i] {
          return Some(i);
        }
        i := i + 1;
      }
      return None;
    }

    /** Sys_FileOpenRead: a slot is looked for before the open, so a full
        table is fatal even for a file that does not exist.  The size of an
        opened file is its length. */
    method FileOpenRead(path: string, disk: Disk) returns (st: Status, size: int, handle: int)
      requires handles.Length == MAX_HANDLES
      modifies handles
      ensures FreeSlot(old(handles[..])).None? ==> st == Fatal(OutOfHandles) && handles[..] == old(handles[..])
      ensures FreeSlot(old(handles[..])).Some? ==> st == Ok
      ensures FreeSlot(old(handles[..])).Some? ==>
        var slot := FreeSlot(old(handles[..])).value;
        if path in disk then handle == slot && size == |disk[path]| && handles[..] == old(handles[..])[slot := true]
        else handle == -1 && size == -1 && handles[..] == old(handles[..])
    {
      var slot := FindHandle();
      if slot.None? {
        return Fatal(OutOfHandles), -1, -1;
      }
      if path !in disk {
        return Ok, -1, -1;
      }
      handles[slot.value] := true;
      return Ok, |disk[path]|, slot.value;
    }

    /** Sys_FileClose. */
    method FileClose(h: int)
      requires 0 <= h < handles.Length && handles[h]
      modifies handles
      ensures handles[..] == old(handles[..])[h := false]
    {
      handles[h] := false;
    }

    /** COM_LoadPackFile with its open: NULL when the file does not open,
        else the parsed pack, which keeps the handle; a modified directory
        sets `com_modified`. */
    method LoadPack(path: string, disk: Disk, crc: Pak.Crc) returns (st: Status, pack: Option<Pack>)
      requires handles.Length == MAX_HANDLES
      modifies handles, this`modified
      ensures old(modified) ==> modified
      ensures FreeSlot(old(handles[..])).None? ==> st == Fatal(OutOfHandles)
      ensures FreeSlot(old(handles[..])).Some? && PackLoad(path, disk, crc).NoFile? ==>
        st == Ok && pack == None && handles[..] == old(handles[..]) && modified == old(modified)
      ensures FreeSlot(old(handles[..])).Some? && PackLoad(path, disk, crc).Fatal? ==>
        st == Fatal(BadPack(PackLoad(path, disk, crc).error))
      ensures FreeSlot(old(handles[..])).Some? && PackLoad(path, disk, crc).Loaded? ==>
        st == Ok && pack == Some(Pack(path, FreeSlot(old(handles[..])).value, PackLoad(path, disk, crc).files)) &&
        handles[..] == old(handles[..])[FreeSlot(old(handles[..])).value := true] &&
        modified == (old(modified) || PackLoad(path, disk, crc).modified)
    {
      var st0, size, h := FileOpenRead(path, disk);
      if st0.Fatal? {
        return st0, None;
      }
      if h == -1 {
        return Ok, None;
      }
      var r := Pak.LoadPackFile(Some(disk[path]), crc);
      match r {
        case NoFile =>
          assert false;
          return Ok, None;
        case Fatal(e) =>
          return Fatal(BadPack(e)), None;
        case Loaded(files, m) =>
          if m {
            modified := true;
          }
          return Ok, Some(Pack(path, h, files));
      }
    }

    /** COM_AddGameDirectory: set the game directory, prepend it with the
        next path id, then prepend pak0.pak, pak1.pak, ... until one does
        not open.  `paks` is how many were added. */
    method AddGameDirectory(dir: string, disk: Disk, crc: Pak.Crc) returns (st: Status, paks: nat)
      requires Valid()
      modifies this, handles
      ensures Valid() && basedir == old(basedir)
      ensures st.Ok? ==> gamedir == dir
      ensures st.Ok? ==>
        MountedOver(searchpaths, old(searchpaths), dir, NextPathId(old(searchpaths)), paks, disk, crc) &&
        PakName(dir, paks) !in disk
      ensures st.Ok? ==> modified == (old(modified) || AnyModified(dir, paks, disk, crc))
      ensures st.Ok? ==>
        TakenInOrder(old(handles[..]), PackHandles(Above(searchpaths, old(searchpaths)))) &&
        handles[..] == Mark(old(handles[..]), PackHandles(Above(searchpaths, old(searchpaths))))
    {
      gamedir := dir;
      ghost var base := searchpaths;
      ghost var mod0 := modified;
      ghost var h0 := handles[..];
      var id := PushDir(dir);
      var i := 0;
      assert searchpaths[..1] == [Dir(id, dir)];
      assert Above(searchpaths, base) == [Dir(id, dir)];
      assert PackHandles([Dir(id, dir)]) == [];
      assert Mark(h0, []) == h0;
      while true
        invariant Valid() && gamedir == dir && basedir == old(basedir)
        invariant MountedOver(searchpaths, base, dir, id, i, disk, crc)
        invariant modified == (mod0 || AnyModified(dir, i, disk, crc))
        invariant TakenInOrder(h0, PackHandles(Above(searchpaths, base)))
        invariant handles[..] == Mark(h0, PackHandles(Above(searchpaths, base)))
        decreases |FreeSet(handles[..])|
      {
        ghost var hb := handles[..];
        var st1, sp := NextPack(dir, id, i, disk, crc);
        if st1.Fatal? {
          return st1, i;
        }
        if sp.None? {
          return Ok, i;
        }
        PushPack(searchpaths, base, sp.value, dir, id, i, disk, crc);
        PrependId(searchpaths, sp.value);
        assert AnyModified(dir, i + 1, disk, crc) == (AnyModified(dir, i, disk, crc) || PakModified(dir, i, disk, crc));
        OpenNext(h0, hb, Above(searchpaths, base), sp.value);
        AboveCons(sp.value, searchpaths, base);
        searchpaths := [sp.value] + searchpaths;
        i := i + 1;
      }
    }

    /** The start of COM_AddGameDirectory: the directory itself goes in
        front with the next path id. */
    method PushDir(dir: string) returns (id: int)
      requires ValidIds(searchpaths)
      modifies this`searchpaths
      ensures id == NextPathId(old(searchpaths)) && 0 <= id < 0x1_0000_0000
      ensures ValidIds(searchpaths)
      ensures searchpaths == [Dir(id, dir)] + old(searchpaths)
    {
      if searchpaths != [] {
        id := ShiftLeftUnsigned(searchpaths[0].pathId);
      } else {
        id := 1;
      }
      searchpaths := [Dir(id, dir)] + searchpaths;
    }

    /** One turn of COM_AddGameDirectory's loop: open `pak<i>.pak` of `dir`
        and make it an element with path id `id`. */
    method NextPack(dir: string, id: int, i: nat, disk: Disk, crc: Pak.Crc) returns (st: Status, sp: Option<SearchPath>)
      requires handles.Length == MAX_HANDLES
      modifies handles, this`modified
      ensures st.Ok? && sp.None? ==>
        PakName(dir, i) !in disk && modified == old(modified) && handles[..] == old(handles[..])
      ensures st.Ok? && sp.Some? ==>
        MountedPack(sp.value, dir, i, id, disk, crc) &&
        modified == (old(modified) || PakModified(dir, i, disk, crc)) &&
        FreeSlot(old(handles[..])).Some? && sp.value.pack.handle == FreeSlot(old(handles[..])).value &&
        handles[..] == old(handles[..])[sp.value.pack.handle := true] &&
        |FreeSet(handles[..])| < |FreeSet(old(handles[..]))|
    {
      ghost var hs := handles[..];
      var pack;
      st, pack := LoadPack(PakName(dir, i), disk, crc);
      if st.Fatal? || pack.None? {
        return st, None;
      }
      TakeShrinks(hs, FreeSlot(hs).value);
      sp := Some(PackPath(id, pack.value));
    }

    /** The element loop of COM_FindFile, with the pack entries scanned by
        name. */
    method LookupLoop(name: string, registered: bool, disk: Disk) returns (f: Found)
      ensures f == Lookup(searchpaths, name, registered, disk)
    {
      var k := 0;
      while k < |searchpaths|
        invariant k <= |searchpaths|
        invariant Lookup(searchpaths[k..], name, registered, disk) == Lookup(searchpaths, name, registered, disk)
      {
        var sp := searchpaths[k];
        assert searchpaths[k..][1..] == searchpaths[k + 1..];
        if sp.PackPath? {
          var i := FindInPack(sp.pack.files, name);
          if i < |sp.pack.files| {
            return InPack(sp.pathId, sp.pack.handle, sp.pack.files[i].filepos, sp.pack.files[i].filelen);
          }
        } else if !Gated(name, registered) && sp.filename + "/" + name in disk {
          return InDir(sp.pathId, sp.filename + "/" + name);
        }
        k := k + 1;
      }
      return NotFound;
    }

    static method FindInPack(files: seq<Pak.PackFile>, name: string) returns (i: nat)
      ensures i == FirstNamed(files, name, 0)
    {
      i := 0;
      while i < |files| && files[i].name != name
        invariant i <= |files|
        invariant FirstNamed(files, name, i) == FirstNamed(files, name, 0)
      {
        i := i + 1;
      }
    }

    /** COM_FindFile for a handle (COM_OpenFile): a pack hit gives the
        pack's own handle and the entry's length; a directory hit opens the
        file on a new handle; otherwise -1.  `pathId` is `None` where the
        C code leaves `*path_id` alone. */
    method FindFile(name: string, registered: bool, disk: Disk)
      returns (st: Status, size: int, handle: int, pathId: Option<int>)
      requires Valid()
      modifies handles
      ensures Valid()
      ensures var f := Lookup(searchpaths, name, registered, disk);
        match f
        case NotFound =>
          st == Ok && size == -1 && handle == -1 && pathId == None && handles[..] == old(handles[..])
        case InPack(id, h, _, len) =>
          st == Ok && size == len && handle == h && pathId == Some(id) && handles[..] == old(handles[..])
        case InDir(id, path) =>
          (FreeSlot(old(handles[..])).None? ==> st == Fatal(OutOfHandles)) &&
          (FreeSlot(old(handles[..])).Some? ==>
            var slot := FreeSlot(old(handles[..])).value;
            st == Ok && size == |disk[path]| && handle == slot && pathId == Some(id) &&
            handles[..] == old(handles[..])[slot := true])
    {
      var f := LookupLoop(name, registered, disk);
      match f {
        case NotFound =>
          return Ok, -1, -1, None;
        case InPack(id, h, _, len) =>
          return Ok, len, h, Some(id);
        case InDir(id, path) =>
          st, size, handle := FileOpenRead(path, disk);
          pathId := Some(id);
      }
    }

    /** Whether `h` is the handle of a pack on the search path. */
    ghost predicate IsPackHandle(h: int)
      reads this
    {
      exists j :: 0 <= j < |searchpaths| && searchpaths[j].PackPath? && searchpaths[j].pack.handle == h
    }

    /** COM_CloseFile: a pack's handle stays open, any other is closed. */
    method CloseFile(h: int)
      requires handles.Length == MAX_HANDLES
      requires IsPackHandle(h) || (0 <= h < MAX_HANDLES && handles[h])
      modifies handles
      ensures IsPackHandle(h) ==> handles[..] == old(handles[..])
      ensures !IsPackHandle(h) ==> handles[..] == old(handles[..])[h := false]
    {
      var k := 0;
      while k < |searchpaths|
        invariant k <= |searchpaths|
        invariant forall j :: 0 <= j < k ==> !(searchpaths[j].PackPath? && searchpaths[j].pack.handle == h)
      {
        if searchpaths[k].PackPath? && searchpaths[k].pack.handle == h {
          return;
        }
        k := k + 1;
      }
      FileClose(h);
    }

    /** The pair of mounts COM_InitFilesystem makes for one game name: under
        the base directory, then under the home directory when there is
        one. */
    method MountBoth(sub: string, home: Option<string>, disk: Disk, crc: Pak.Crc) returns (st: Status)
      requires Valid()
      modifies this, handles
      ensures Valid() && basedir == old(basedir)
      ensures st.Ok? ==> DirNames(searchpaths) == Both(basedir, home, sub) + old(DirNames(searchpaths))
      ensures st.Ok? ==> gamedir == Both(basedir, home, sub)[0]
      ensures st.Ok? ==>
        Extends(searchpaths, old(searchpaths), old(handles[..]), handles[..], old(modified), modified, disk, crc)
    {
      ghost var s0, h0, m0 := searchpaths, handles[..], modified;
      ghost var d0 := DirNames(searchpaths);
      st := MountDir(basedir + "/" + sub, disk, crc);
      if st.Fatal? {
        return;
      }
      if home.Some? {
        ghost var s1, h1, m1 := searchpaths, handles[..], modified;
        st := MountDir(home.value + "/.fxquake/" + sub, disk, crc);
        if st.Ok? {
          assert [home.value + "/.fxquake/" + sub] + ([basedir + "/" + sub] + d0) == Both(basedir, home, sub) + d0;
          ExtendsCompose(searchpaths, s1, s0, h0, h1, handles[..], m0, m1, false, modified, disk, crc);
          assert Extends(searchpaths, s0, h0, handles[..], m0, modified, disk, crc);
        }
      }
    }

    /** One COM_AddGameDirectory, seen through the directory names. */
    method MountDir(dir: string, disk: Disk, crc: Pak.Crc) returns (st: Status)
      requires Valid()
      modifies this, handles
      ensures Valid() && basedir == old(basedir)
      ensures st.Ok? ==> DirNames(searchpaths) == [dir] + old(DirNames(searchpaths))
      ensures st.Ok? ==> gamedir == dir
      ensures st.Ok? ==>
        Extends(searchpaths, old(searchpaths), old(handles[..]), handles[..], old(modified), modified, disk, crc)
    {
      var n;
      ghost var before := searchpaths;
      st, n := AddGameDirectory(dir, disk, crc);
      if st.Ok? {
        MountNames(before, searchpaths, dir, n, disk, crc);
        MountIsMounted(searchpaths, before, dir, n, disk, crc);
        MountModified(searchpaths[..n + 1], dir, NextPathId(before), n, disk, crc);
      }
    }

    /** `-path`: drop the search path and prepend one element per argument
        of the run; a pack that does not open is fatal. */
    method ApplyPath(run: seq<string>, disk: Disk, crc: Pak.Crc) returns (st: Status)
      requires handles.Length == MAX_HANDLES
      modifies this, handles
      ensures handles.Length == MAX_HANDLES && basedir == old(basedir) && gamedir == old(gamedir)
      ensures old(modified) ==> modified
      ensures st.Ok? ==> |searchpaths| == |run|
      ensures st.Ok? ==> PathEntries(searchpaths, run, disk, crc)
      ensures st.Ok? ==> ValidIds(searchpaths)
    {
      searchpaths := [];
      var i := 0;
      while i < |run|
        invariant i <= |run| && handles.Length == MAX_HANDLES
        invariant basedir == old(basedir) && gamedir == old(gamedir) && (old(modified) ==> modified)
        invariant EntriesFor(EntryTest(disk, crc), searchpaths, run[..i])
        invariant ValidIds(searchpaths)
      {
        var a := run[i];
        var st1, sp := PathElement(a, disk, crc);
        if st1.Fatal? {
          return st1;
        }
        assert EntryTest(disk, crc)(sp, run[i]);
        PrependEntry(EntryTest(disk, crc), searchpaths, sp, run, i);
        searchpaths := [sp] + searchpaths;
        i := i + 1;
      }
      assert run[..i] == run;
      return Ok;
    }

    /** One argument of `-path`: a pack when its extension is "pak", which
        must load, else a directory. */
    method PathElement(a: string, disk: Disk, crc: Pak.Crc) returns (st: Status, sp: SearchPath)
      requires handles.Length == MAX_HANDLES
      modifies handles, this`modified
      ensures old(modified) ==> modified
      ensures st.Ok? ==> PathEntry(sp, a, disk, crc) && sp.pathId == 0
    {
      var ext := Paths.FileExtension(a);
      if ext == "pak" {
        var pack;
        st, pack := LoadPack(a, disk, crc);
        if st.Fatal? {
          return st, Dir(0, a);
        }
        if pack.None? {
          return Fatal(CannotLoadPack(a)), Dir(0, a);
        }
        return Ok, PackPath(0, pack.value);
      }
      return Ok, Dir(0, a);
    }

    /** COM_InitFilesystem.  `host` is the host's base directory and `home`
        the HOME variable; the cache directory and the creation of the game
        directory are not part of this model. */
    method InitFilesystem(argv: seq<string>, host: string, home: Option<string>, disk: Disk, crc: Pak.Crc)
      returns (st: Status)
      requires Valid() && searchpaths == []
      modifies this, handles
      ensures handles.Length == MAX_HANDLES
      ensures st.Ok? ==> basedir == BasedirOf(argv, host)
      ensures st.Ok? ==> gamedir == SearchDirs(argv, basedir, home)[0]
      ensures st.Ok? && Args.CheckParmOf(argv, "-path") == 0 ==>
        Valid() && DirNames(searchpaths) == SearchDirs(argv, basedir, home)
      ensures st.Ok? && Args.CheckParmOf(argv, "-path") == 0 ==>
        Extends(searchpaths, [], old(handles[..]), handles[..],
                old(modified) || ParmValue(argv, "-mod").Some? || ParmValue(argv, "-game").Some?, modified, disk, crc)
      ensures st.Ok? && Args.CheckParmOf(argv, "-path") != 0 ==>
        var run := PathRun(argv, Args.CheckParmOf(argv, "-path") + 1);
        PathEntries(searchpaths, run, disk, crc)
      ensures st.Ok? ==> (old(modified) ==> modified)
      ensures st.Ok? && Args.CheckParmOf(argv, "-path") != 0 ==> modified
      ensures st.Ok? && (ParmValue(argv, "-mod").Some? || ParmValue(argv, "-game").Some?) ==> modified
    {
      basedir := BasedirOf(argv, host);
      st := MountGameDirs(argv, home, disk, crc);
      if st.Fatal? {
        return;
      }
      st := PathOverride(argv, disk, crc);
    }

    /** The `-path` step of COM_InitFilesystem: without the flag nothing
        changes; with it the directory counts as modified and the search
        path is replaced by the run of arguments after it. */
    method PathOverride(argv: seq<string>, disk: Disk, crc: Pak.Crc) returns (st: Status)
      requires handles.Length == MAX_HANDLES
      modifies this, handles
      ensures handles.Length == MAX_HANDLES && basedir == old(basedir) && gamedir == old(gamedir)
      ensures Args.CheckParmOf(argv, "-path") == 0 ==>
        st == Ok && searchpaths == old(searchpaths) && modified == old(modified) && handles[..] == old(handles[..])
      ensures Args.CheckParmOf(argv, "-path") != 0 ==> modified
      ensures st.Ok? && Args.CheckParmOf(argv, "-path") != 0 ==>
        var run := PathRun(argv, Args.CheckParmOf(argv, "-path") + 1);
        PathEntries(searchpaths, run, disk, crc)
    {
      var p := Args.CheckParm(argv, "-path");
      if p == 0 {
        return Ok;
      }
      modified := true;
      var run := PathArgs(argv, p + 1);
      st := ApplyPath(run, disk, crc);
    }

    /** The mounts of COM_InitFilesystem, in the order the C code makes
        them. */
    method MountGameDirs(argv: seq<string>, home: Option<string>, disk: Disk, crc: Pak.Crc) returns (st: Status)
      requires Valid() && searchpaths == []
      modifies this, handles
      ensures Valid() && basedir == old(basedir)
      ensures st.Ok? ==> DirNames(searchpaths) == SearchDirs(argv, basedir, home)
      ensures st.Ok? ==> gamedir == SearchDirs(argv, basedir, home)[0]
      ensures st.Ok? ==>
        Extends(searchpaths, [], old(handles[..]), handles[..],
                old(modified) || ParmValue(argv, "-mod").Some? || ParmValue(argv, "-game").Some?, modified, disk, crc)
    {
      assert DirNames(searchpaths) == [];
      ghost var h0, m0 := handles[..], modified;
      st := MountBoth(GAMENAME, home, disk, crc);
      if st.Fatal? { return; }
      ghost var d1 := DirNames(searchpaths);
      ghost var s1, h1, m1 := searchpaths, handles[..], modified;
      st := MountMissionPacks(argv, "rogue", "hipnotic", "quoth", "nehahra", home, disk, crc);
      if st.Fatal? { return; }
      ghost var d2 := DirNames(searchpaths);
      ExtendsCompose(searchpaths, s1, [], h0, h1, handles[..], m0, m1, false, modified, disk, crc);
      ghost var s2, h2, m2 := searchpaths, handles[..], modified;
      st := MountMods(argv, home, disk, crc);
      if st.Fatal? { return; }
      SearchSteps(argv, basedir, home, d1, d2, DirNames(searchpaths));
      ExtendsCompose(searchpaths, s2, [], h0, h2, handles[..], m0, m2,
                     ParmValue(argv, "-mod").Some? || ParmValue(argv, "-game").Some?, modified, disk, crc);
    }

    /** The mission packs, in the order the C code tries them: rogue,
        hipnotic, quoth and nehahra. */
    method MountMissionPacks(argv: seq<string>, p1: string, p2: string, p3: string, p4: string,
                             home: Option<string>, disk: Disk, crc: Pak.Crc) returns (st: Status)
      requires Valid() && DirNames(searchpaths) != [] && gamedir == DirNames(searchpaths)[0]
      modifies this, handles
      ensures Valid() && basedir == old(basedir)
      ensures st.Ok? ==> DirNames(searchpaths) == MissionDirs(argv, basedir, home, p1, p2, p3, p4) + old(DirNames(searchpaths))
      ensures st.Ok? ==> DirNames(searchpaths) != [] && gamedir == DirNames(searchpaths)[0]
      ensures st.Ok? ==>
        Extends(searchpaths, old(searchpaths), old(handles[..]), handles[..], old(modified), modified, disk, crc)
    {
      ghost var s0, h0, m0 := searchpaths, handles[..], modified;
      ghost var d0 := DirNames(searchpaths);
      st := MountIf(argv, p1, home, disk, crc);
      if st.Fatal? { return; }
      ghost var d1 := DirNames(searchpaths);
      ghost var s1, h1, m1 := searchpaths, handles[..], modified;
      st := MountIf(argv, p2, home, disk, crc);
      if st.Fatal? { return; }
      ExtendsCompose(searchpaths, s1, s0, h0, h1, handles[..], m0, m1, false, modified, disk, crc);
      ghost var d2 := DirNames(searchpaths);
      ghost var s2, h2, m2 := searchpaths, handles[..], modified;
      st := MountIf(argv, p3, home, disk, crc);
      if st.Fatal? { return; }
      ExtendsCompose(searchpaths, s2, s0, h0, h2, handles[..], m0, m2, false, modified, disk, crc);
      ghost var d3 := DirNames(searchpaths);
      ghost var s3, h3, m3 := searchpaths, handles[..], modified;
      st := MountIf(argv, p4, home, disk, crc);
      if st.Fatal? { return; }
      ExtendsCompose(searchpaths, s3, s0, h0, h3, handles[..], m0, m3, false, modified, disk, crc);
      MissionSteps(argv, basedir, home, p1, p2, p3, p4, d0, d1, d2, d3, DirNames(searchpaths));
    }

    /** `-mod`, then `-game`. */
    method MountMods(argv: seq<string>, home: Option<string>, disk: Disk, crc: Pak.Crc) returns (st: Status)
      requires Valid() && DirNames(searchpaths) != [] && gamedir == DirNames(searchpaths)[0]
      modifies this, handles
      ensures Valid() && basedir == old(basedir)
      ensures st.Ok? ==> DirNames(searchpaths) == ModDirs(argv, basedir, home) + old(DirNames(searchpaths))
      ensures st.Ok? ==> DirNames(searchpaths) != [] && gamedir == DirNames(searchpaths)[0]
      ensures st.Ok? ==>
        Extends(searchpaths, old(searchpaths), old(handles[..]), handles[..],
                old(modified) || ParmValue(argv, "-mod").Some? || ParmValue(argv, "-game").Some?, modified, disk, crc)
    {
      ghost var s0, h0, m0 := searchpaths, handles[..], modified;
      ghost var d0 := DirNames(searchpaths);
      st := MountValue(argv, "-mod", home, disk, crc);
      if st.Fatal? { return; }
      ghost var s1, h1, m1 := searchpaths, handles[..], modified;
      ghost var d1 := DirNames(searchpaths);
      st := MountValue(argv, "-game", home, disk, crc);
      if st.Ok? {
        ModSteps(argv, basedir, home, d0, d1, DirNames(searchpaths));
        ExtendsCompose(searchpaths, s1, s0, h0, h1, handles[..], m0 || ParmValue(argv, "-mod").Some?, m1,
                       ParmValue(argv, "-game").Some?, modified, disk, crc);
        assert Extends(searchpaths, s0, h0, handles[..],
                       m0 || ParmValue(argv, "-mod").Some? || ParmValue(argv, "-game").Some?, modified, disk, crc);
      }
    }

    /** A mission pack's pair of mounts, made when its flag `-<sub>` is
        present. */
    method MountIf(argv: seq<string>, sub: string, home: Option<string>, disk: Disk, crc: Pak.Crc)
      returns (st: Status)
      requires Valid() && DirNames(searchpaths) != [] && gamedir == DirNames(searchpaths)[0]
      modifies this, handles
      ensures Valid() && basedir == old(basedir)
      ensures st.Ok? ==> DirNames(searchpaths) == IfParm(argv, "-" + sub, Both(basedir, home, sub)) + old(DirNames(searchpaths))
      ensures st.Ok? ==> DirNames(searchpaths) != [] && gamedir == DirNames(searchpaths)[0]
      ensures st.Ok? ==>
        Extends(searchpaths, old(searchpaths), old(handles[..]), handles[..], old(modified), modified, disk, crc)
    {
      var c := Args.CheckParm(argv, "-" + sub);
      if c != 0 {
        st := MountBoth(sub, home, disk, crc);
      } else {
        st := Ok;
        ExtendsNothing(searchpaths, handles[..], modified, disk, crc);
        assert searchpaths == old(searchpaths) && handles[..] == old(handles[..]) && modified == old(modified);
      }
    }

    /** The pair of mounts for `-mod` or `-game`, which also marks the game
        as modified. */
    method MountValue(argv: seq<string>, flag: string, home: Option<string>, disk: Disk, crc: Pak.Crc)
      returns (st: Status)
      requires Valid() && DirNames(searchpaths) != [] && gamedir == DirNames(searchpaths)[0]
      modifies this, handles
      ensures Valid() && basedir == old(basedir)
      ensures st.Ok? ==> DirNames(searchpaths) == IfValue(ParmValue(argv, flag), basedir, home) + old(DirNames(searchpaths))
      ensures st.Ok? ==> DirNames(searchpaths) != [] && gamedir == DirNames(searchpaths)[0]
      ensures st.Ok? ==>
        Extends(searchpaths, old(searchpaths), old(handles[..]), handles[..],
                old(modified) || ParmValue(argv, flag).Some?, modified, disk, crc)
    {
      var v := ModValue(argv, flag);
      if v.Some? {
        modified := true;
        st := MountBoth(v.value, home, disk, crc);
      } else {
        ExtendsNothing(searchpaths, handles[..], modified, disk, crc);
        st := Ok;
      }
    }
  }

  /** COM_CheckParm of a flag that takes a value, as COM_InitFilesystem
      reads it. */
  method ModValue(argv: seq<string>, flag: string) returns (v: Option<string>)
    ensures v == ParmValue(argv, flag)
  {
    var i := Args.CheckParm(argv, flag);
    if i != 0 && i < |argv| - 1 {
      return Some(argv[i + 1]);
    }
    return None;
  }

  /** The `while (++i < com_argc)` loop's run of arguments. */
  method PathArgs(argv: seq<string>, from: nat) returns (run: seq<string>)
    ensures run == PathRun(argv, from)
  {
    run := [];
    var i := from;
    while i < |argv| && !(|argv[i]| > 0 && (argv[i][0] == '+' || argv[i][0] == '-'))
      invariant from <= i && (i <= |argv| || i == from)
      invariant run + PathRun(argv, i) == PathRun(argv, from)
      decreases |argv| - i
    {
      run := run + [argv[i]];
      i := i + 1;
    }
  }

  /** A mount adds its directory's name in front of the others. */
  lemma MountNames(before: seq<SearchPath>, after: seq<SearchPath>, dir: string, n: nat, disk: Disk, crc: Pak.Crc)
    requires ValidIds(before)
    requires MountedOver(after, before, dir, NextPathId(before), n, disk, crc)
    ensures DirNames(after) == [dir] + DirNames(before)
  {
    assert after == after[..n + 1] + before;
    DirNamesAppend(after[..n + 1], before);
    DirNamesOfMount(after[..n + 1], dir, NextPathId(before), n, disk, crc);
  }
}
