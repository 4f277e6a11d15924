/** The sorted name lists: COM_FileListAdd, COM_FileListClear and
    COM_ScanPakFileList.

    The list is kept in `strcasecmp` order, but a name is a duplicate only
    when it is `strcmp`-equal to one already there, so "Foo" and "foo" can
    both be present.  The C list is a chain of heap nodes; the model holds
    the names from head to tail in a sequence that the methods reassign. */
module FileList {
  import opened CTypes
  import Paths

  // ---------------------------------------------------------------------
  // strcasecmp

  /** `tolower` on one character. */
  function Lower(c: char): char
  {
    if 'A' <= c <= 'Z' then (c as int + 32) as char else c
  }

  /** The sign of `strcasecmp(a, b)`: the first pair of characters that
      differ after `tolower` decides, and a prefix comes first. */
  function CaseCompare(a: string, b: string): (r: int)
    ensures -1 <= r <= 1
    ensures a == b ==> r == 0
  {
    if a == [] && b == [] then 0
    else if a == [] then -1
    else if b == [] then 1
    else if Lower(a[0]) < Lower(b[0]) then -1
    else if Lower(a[0]) > Lower(b[0]) then 1
    else CaseCompare(a[1..], b[1..])
  }

  /** Swapping the arguments flips the sign. */
  lemma {:induction false} CaseCompareFlip(a: string, b: string)
    ensures CaseCompare(b, a) == -CaseCompare(a, b)
  {
    if a != [] && b != [] && Lower(a[0]) == Lower(b[0]) {
      CaseCompareFlip(a[1..], b[1..]);
    }
  }

  /** The order is transitive. */
  lemma {:induction false} CaseCompareTrans(a: string, b: string, c: string)
    requires CaseCompare(a, b) <= 0 && CaseCompare(b, c) <= 0
    ensures CaseCompare(a, c) <= 0
  {
    if a != [] && b != [] && c != [] && Lower(a[0]) == Lower(b[0]) == Lower(c[0]) {
      CaseCompareTrans(a[1..], b[1..], c[1..]);
    }
  }

  /** Non-decreasing `strcasecmp` order. */
  predicate Sorted(l: seq<string>)
  {
    forall i, j :: 0 <= i < j < |l| ==> CaseCompare(l[i], l[j]) <= 0
  }

  // ---------------------------------------------------------------------
  // COM_FileListAdd

  /** The walk after the head: the first index from `k` whose name is not
      below `x`, or the end. */
  function InsertFrom(l: seq<string>, x: string, k: nat): (r: nat)
    requires 1 <= k <= |l|
    ensures k <= r <= |l|
    ensures forall i :: k <= i < r ==> CaseCompare(x, l[i]) > 0
    ensures r < |l| ==> CaseCompare(x, l[r]) <= 0
    decreases |l| - k
  {
    if k == |l| || CaseCompare(x, l[k]) <= 0 then k else InsertFrom(l, x, k + 1)
  }

  /** Where the new node goes: at the front when the list is empty or `x`
      is below the head, else after the last node below it. */
  function InsertPos(l: seq<string>, x: string): (k: nat)
    ensures k <= |l|
    ensures k == 0 <==> l == [] || CaseCompare(x, l[0]) < 0
    ensures forall i :: 1 <= i < k ==> CaseCompare(x, l[i]) > 0
    ensures 0 < k < |l| ==> CaseCompare(x, l[k]) <= 0
  {
    if l == [] || CaseCompare(x, l[0]) < 0 then 0 else InsertFrom(l, x, 1)
  }

  /** The list after COM_FileListAdd. */
  function AddOf(l: seq<string>, x: string): seq<string>
  {
    if x in l then l
    else
      var k := InsertPos(l, x);
      l[..k] + [x] + l[k..]
  }

  /** A name already present leaves the list alone; otherwise the name goes
      in once, and the old names keep their order around it. */
  lemma AddContents(l: seq<string>, x: string)
    ensures x in l ==> AddOf(l, x) == l
    ensures x !in l ==> exists k :: 0 <= k <= |l| && AddOf(l, x) == l[..k] + [x] + l[k..]
    ensures multiset(AddOf(l, x)) == multiset(l) + if x in l then multiset{} else multiset{x}
  {
    if x !in l {
      var k := InsertPos(l, x);
      assert l == l[..k] + l[k..];
    }
  }

  /** The names of the list after adding: the old ones and the new one. */
  lemma AddMembers(l: seq<string>, x: string)
    ensures forall y :: y in AddOf(l, x) <==> y in l || y == x
  {
    AddContents(l, x);
    assert forall y :: y in AddOf(l, x) <==> y in multiset(AddOf(l, x));
  }

  /** A name that is at least everything before `k` and at most everything
      from `k` on keeps a sorted list sorted when it goes in at `k`. */
  lemma SortedInsert(l: seq<string>, k: nat, x: string)
    requires Sorted(l) && k <= |l|
    requires forall i :: 0 <= i < k ==> CaseCompare(l[i], x) <= 0
    requires forall j :: k <= j < |l| ==> CaseCompare(x, l[j]) <= 0
    ensures Sorted(l[..k] + [x] + l[k..])
  {
    var r := l[..k] + [x] + l[k..];
    forall i, j | 0 <= i < j < |r| ensures CaseCompare(r[i], r[j]) <= 0 {
      if j < k {
        assert r[i] == l[i] && r[j] == l[j];
      } else if j == k {
        assert r[i] == l[i] && r[j] == x;
      } else if i < k {
        assert r[i] == l[i] && r[j] == l[j - 1];
      } else if i == k {
        assert r[i] == x && r[j] == l[j - 1];
      } else {
        assert r[i] == l[i - 1] && r[j] == l[j - 1];
      }
    }
  }

  /** Adding to a sorted list keeps it sorted. */
  lemma AddKeepsSorted(l: seq<string>, x: string)
    requires Sorted(l)
    ensures Sorted(AddOf(l, x))
  {
    if x !in l {
      var k := InsertPos(l, x);
      // every name before the new one is at most it
      forall i | 0 <= i < k ensures CaseCompare(l[i], x) <= 0 {
        CaseCompareFlip(x, l[k - 1]);
        assert CaseCompare(x, l[k - 1]) >= 0;
        if i < k - 1 {
          CaseCompareTrans(l[i], l[k - 1], x);
        }
      }
      // every name after it is at least it
      forall j | k <= j < |l| ensures CaseCompare(x, l[j]) <= 0 {
        assert CaseCompare(x, l[k]) <= 0;
        if k < j {
          CaseCompareTrans(x, l[k], l[j]);
        }
      }
      SortedInsert(l, k, x);
    }
  }

  /** Dedup is by exact text, the order ignores case: "FOO" goes in after
      "foo" rather than being dropped. */
  lemma CaseVariantsBothKept()
    ensures AddOf(["foo"], "FOO") == ["foo", "FOO"]
  {
    assert "FOO" !in ["foo"];
    assert CaseCompare("FOO", "foo") == 0;
    assert InsertFrom(["foo"], "FOO", 1) == 1;
  }

  // ---------------------------------------------------------------------
  // COM_ScanPakFileList

  /** The name a pack entry adds: the part after the last '/', without its
      extension when `stripext` is set. */
  function ListedName(name: string, stripext: bool): string
  {
    var base := name[Paths.SkipPathOf(name)..];
    if stripext then Paths.StemOf(base) else base
  }

  /** Whether a pack entry's extension is `ext`, ignoring case. */
  predicate Matches(name: string, ext: string)
  {
    CaseCompare(Paths.ExtensionOf(name), ext) == 0
  }

  /** The list after adding the matching entries of `files` in order. */
  function ScanOf(l: seq<string>, files: seq<string>, ext: string, stripext: bool): seq<string>
  {
    if files == [] then l
    else
      var l' := ScanOf(l, files[..|files| - 1], ext, stripext);
      var f := files[|files| - 1];
      if Matches(f, ext) then AddOf(l', ListedName(f, stripext)) else l'
  }

  /** Scanning keeps a sorted list sorted, keeps every old name, and adds
      exactly the listed names of the matching entries. */
  lemma {:induction false} ScanContents(l: seq<string>, files: seq<string>, ext: string, stripext: bool)
    requires Sorted(l)
    ensures Sorted(ScanOf(l, files, ext, stripext))
    ensures forall y :: y in ScanOf(l, files, ext, stripext) <==>
      y in l || exists f :: f in files && Matches(f, ext) && y == ListedName(f, stripext)
  {
    if files != [] {
      var init := files[..|files| - 1];
      var f := files[|files| - 1];
      var l' := ScanOf(l, init, ext, stripext);
      ScanContents(l, init, ext, stripext);
      assert files == init + [f];
      if Matches(f, ext) {
        AddKeepsSorted(l', ListedName(f, stripext));
        AddMembers(l', ListedName(f, stripext));
      }
    }
  }

  /** One more entry of the pack extends the scan by that entry alone. */
  lemma ScanStep(l: seq<string>, files: seq<string>, i: nat, ext: string, stripext: bool)
    requires i < |files|
    ensures ScanOf(l, files[..i + 1], ext, stripext) ==
      var l' := ScanOf(l, files[..i], ext, stripext);
      if Matches(files[i], ext) then AddOf(l', ListedName(files[i], stripext)) else l'
  {
    assert files[..i + 1][..i] == files[..i];
  }

  // ---------------------------------------------------------------------
  // The list itself

  class NameList {
    /** The names from head to tail. */
    var names: seq<string>

    constructor ()
      ensures names == []
    {
      names := [];
    }

    /** COM_FileListAdd: the duplicate scan, then the sorted splice. */
    method Add(name: string)
      modifies this
      ensures names == AddOf(old(names), name)
    {
      var i := 0;
      while i < |names|
        invariant i <= |names|
        invariant forall k :: 0 <= k < i ==> names[k] != name
      {
        if names[i] == name {
          return;
        }
        i := i + 1;
      }
      assert name !in names;
      if names == [] || CaseCompare(name, names[0]) < 0 {
        assert InsertPos(names, name) == 0;
        names := [name] + names;
        return;
      }
      var k := 1;
      while k < |names| && CaseCompare(name, names[k]) > 0
        invariant 1 <= k <= |names|
        invariant InsertFrom(names, name, k) == InsertFrom(names, name, 1)
      {
        k := k + 1;
      }
      assert k == InsertPos(names, name);
      names := names[..k] + [name] + names[k..];
    }

    /** COM_FileListClear: free the nodes from the head. */
    method Clear()
      modifies this
      ensures names == []
    {
      while names != []
        decreases |names|
      {
        names := names[1..];
      }
    }

    /** COM_ScanPakFileList.  `exts` stands for the caller's NULL-ended
        array; the C code takes its element count from the size of a
        pointer, so only `exts[0]` is ever tried. */
    method ScanPak(files: seq<string>, exts: seq<Option<string>>, stripext: bool)
      requires |exts| >= 1
      modifies this
      ensures exts[0].None? ==> names == old(names)
      ensures exts[0].Some? ==> names == ScanOf(old(names), files, exts[0].value, stripext)
    {
      if exts[0].None? {
        return;
      }
      var ext := exts[0].value;
      var i := 0;
      while i < |files|
        invariant i <= |files|
        invariant names == ScanOf(old(names), files[..i], ext, stripext)
      {
        var f := files[i];
        ScanStep(old(names), files, i, ext, stripext);
        var e := Paths.FileExtension(f);
        if CaseCompare(e, ext) == 0 {
          var last := Paths.SkipPath(f);
          var filename: string := f[last..];
          if stripext {
            filename := Paths.StripExtension(filename);
          }
          assert filename == ListedName(f, stripext);
          Add(filename);
        }
        i := i + 1;
      }
      assert files[..i] == files;
    }
  }
}
