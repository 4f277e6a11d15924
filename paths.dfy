/** The string and path helpers: Q_strnlen, COM_SkipPath,
    COM_StripExtension, COM_FileExtension, COM_FileBase and
    COM_DefaultExtension.

    A C string is held as the `string` before its terminator.  Each helper
    scans with a loop, as the C code does, and is proved against a
    specification written with the two index functions below.  Helpers that
    write into a caller's buffer return the buffer's new text instead. */
module Paths {
  import opened CTypes

  // ---------------------------------------------------------------------
  // Index functions the specifications are written with

  /** The index of the first `c` in `s`, or `|s|` when there is none. */
  function FirstIndex(s: string, c: char): (k: nat)
    ensures k <= |s|
    ensures forall i :: 0 <= i < k ==> s[i] != c
    ensures k < |s| ==> s[k] == c
  {
    if s == [] || s[0] == c then 0 else 1 + FirstIndex(s[1..], c)
  }

  /** A backwards scan from `j` that stops at a character of `stop` but never
      inspects index 0: the largest `k` in `1..j` with `s[k] in stop`, or 0. */
  function ScanBack(s: string, j: nat, stop: set<char>): (k: nat)
    requires j < |s|
    ensures k <= j
    ensures k > 0 ==> s[k] in stop
    ensures forall i :: k < i <= j ==> s[i] !in stop
  {
    if j == 0 || s[j] in stop then j else ScanBack(s, j - 1, stop)
  }

  // ---------------------------------------------------------------------
  // Q_strnlen

  /** Q_strnlen: the length of the string in `s`, at most `maxlen`.  The
      caller's memory must hold `maxlen` bytes or a terminator before its end. */
  method StrNLen(s: seq<byte>, maxlen: nat) returns (n: nat)
    requires maxlen <= |s| || 0 in s
    ensures n <= maxlen && n <= |s|
    ensures forall i :: 0 <= i < n ==> s[i] != 0
    ensures n < maxlen ==> s[n] == 0
  {
    n := 0;
    while n < maxlen && s[n] != 0
      invariant n <= maxlen && n <= |s|
      invariant forall i :: 0 <= i < n ==> s[i] != 0
      invariant maxlen > |s| ==> 0 in s[n..]
    {
      assert s[n..] == [s[n]] + s[n + 1..];
      n := n + 1;
    }
  }

  // ---------------------------------------------------------------------
  // COM_SkipPath

  /** Where COM_SkipPath leaves the name: just past the last '/', or 0. */
  function SkipPathOf(p: string): (last: nat)
    ensures last <= |p|
    ensures forall i :: last <= i < |p| ==> p[i] != '/'
    ensures last > 0 ==> p[last - 1] == '/'
  {
    if p == [] then 0
    else if p[|p| - 1] == '/' then |p|
    else SkipPathOf(p[..|p| - 1])
  }

  /** COM_SkipPath, with the forward scan of the C code. */
  method SkipPath(p: string) returns (last: nat)
    ensures last == SkipPathOf(p)
  {
    last := 0;
    var i := 0;
    while i < |p|
      invariant i <= |p| && last == SkipPathOf(p[..i])
    {
      assert p[..i + 1][..i] == p[..i];
      if p[i] == '/' {
        last := i + 1;
      }
      i := i + 1;
    }
    assert p[..i] == p;
  }

  // ---------------------------------------------------------------------
  // COM_StripExtension and COM_FileExtension

  /** The name without its extension: everything before the first '.'. */
  function StemOf(s: string): string
  {
    s[..FirstIndex(s, '.')]
  }

  /** The extension: up to 7 characters after the first '.', or "". */
  function ExtensionOf(s: string): string
  {
    var d := FirstIndex(s, '.');
    if d == |s| then "" else s[d + 1..if |s| < d + 8 then |s| else d + 8]
  }

  /** COM_StripExtension: copy up to the first '.'. */
  method StripExtension(s: string) returns (out: string)
    ensures out == StemOf(s)
  {
    out := "";
    var i := 0;
    while i < |s| && s[i] != '.'
      invariant i <= |s| && out == s[..i]
      invariant forall k :: 0 <= k < i ==> s[k] != '.'
    {
      out := out + [s[i]];
      i := i + 1;
    }
    assert i == FirstIndex(s, '.');
  }

  /** COM_FileExtension: skip to the first '.', then copy at most 7. */
  method FileExtension(s: string) returns (ext: string)
    ensures ext == ExtensionOf(s)
  {
    var i := 0;
    while i < |s| && s[i] != '.'
      invariant i <= |s|
      invariant forall k :: 0 <= k < i ==> s[k] != '.'
    {
      i := i + 1;
    }
    assert i == FirstIndex(s, '.');
    if i == |s| {
      return "";
    }
    ghost var d := i;
    i := i + 1;
    ext := "";
    var n := 0;
    while n < 7 && i < |s|
      invariant d + 1 <= i <= |s| && n == i - d - 1 && n <= 7
      invariant ext == s[d + 1..i]
    {
      ext := ext + [s[i]];
      i := i + 1;
      n := n + 1;
    }
  }

  /** The stem and the extension are the two sides of the first '.': the
      stem holds no '.', and when the extension is short enough to be whole
      the name is exactly stem, '.', extension. */
  lemma StemAndExtension(s: string)
    ensures '.' !in StemOf(s)
    ensures |ExtensionOf(s)| <= 7
    ensures StemOf(s) == s <==> ExtensionOf(s) == "" && '.' !in s
    ensures '.' in s && |s| - |StemOf(s)| - 1 <= 7 ==> s == StemOf(s) + "." + ExtensionOf(s)
  {
    var d := FirstIndex(s, '.');
    if '.' in s {
      var k :| 0 <= k < |s| && s[k] == '.';
      assert d <= k;
      if d + 8 >= |s| {
        assert s == s[..d] + "." + s[d + 1..];
      }
    }
  }

  // ---------------------------------------------------------------------
  // COM_FileBase

  const Separators: set<char> := {'/', '\\'}

  /** The text COM_FileBase gives for a name with no usable stem. */
  const UnknownModel: string := "?model?"

  /** COM_FileBase: the name between the last separator and the last '.',
      cut to 31 characters; "?model?" when fewer than two characters lie
      between them.  A name without a '.' after index 0 also gives
      "?model?", because the scan for the '.' stops at the first character. */
  function FileBaseOf(s: string): (out: string)
    requires |s| >= 1
  {
    var dot := ScanBack(s, |s| - 1, {'.'});
    var sep := ScanBack(s, dot, Separators);
    if dot - sep < 2 then UnknownModel
    else
      var start := if s[sep] in Separators then sep + 1 else sep;
      var end := if dot - start >= 32 then start + 31 else dot;
      s[start..end]
  }

  /** The fallback text is short and holds no separator. */
  lemma UnknownModelShape()
    ensures |UnknownModel| == 7
    ensures forall i :: 0 <= i < |UnknownModel| ==> UnknownModel[i] !in Separators
  {
    var u := UnknownModel;
    assert u[0] == '?' && u[1] == 'm' && u[2] == 'o' && u[3] == 'd' && u[4] == 'e' && u[5] == 'l' && u[6] == '?';
  }

  /** The base name is short, holds no separator, and when it is not the
      "?model?" fallback it is a piece of the name that ends at the last
      '.' unless it was cut to 31 characters. */
  lemma FileBaseShape(s: string) returns (start: nat)
    requires |s| >= 1
    ensures |FileBaseOf(s)| <= 31
    ensures forall i :: 0 <= i < |FileBaseOf(s)| ==> FileBaseOf(s)[i] !in Separators
    ensures FileBaseOf(s) != UnknownModel ==>
      start + |FileBaseOf(s)| < |s| && FileBaseOf(s) == s[start..start + |FileBaseOf(s)|]
        && (|FileBaseOf(s)| < 31 ==> s[start + |FileBaseOf(s)|] == '.')
  {
    var dot := ScanBack(s, |s| - 1, {'.'});
    var sep := ScanBack(s, dot, Separators);
    start := 0;
    if dot - sep < 2 {
      UnknownModelShape();
    } else {
      start := if s[sep] in Separators then sep + 1 else sep;
      var end := if dot - start >= 32 then start + 31 else dot;
      assert s[start..end] == FileBaseOf(s);
      PieceShape(s, start, end);
    }
  }

  /** A piece of the name with no separator in it, cut at 31 characters or
      ending at a '.'. */
  lemma PieceShape(s: string, start: nat, end: nat)
    requires start <= end < |s| && end - start <= 31
    requires forall i :: start <= i < end ==> s[i] !in Separators
    requires end - start < 31 ==> s[end] == '.'
    ensures var out := s[start..end];
      forall i :: 0 <= i < |out| ==> out[i] !in Separators
    ensures var out := s[start..end];
      start + |out| < |s| && out == s[start..start + |out|] && (|out| < 31 ==> s[start + |out|] == '.')
  {
    var out := s[start..end];
    forall i | 0 <= i < |out| ensures out[i] !in Separators {
      assert out[i] == s[start + i];
    }
  }

  /** COM_FileBase, with the two backwards scans of the C code. */
  method FileBase(s: string) returns (out: string)
    requires |s| >= 1
    ensures out == FileBaseOf(s)
  {
    var dot := LastDot(s);
    var sep := LastSeparator(s, dot);
    if dot - sep < 2 {
      return UnknownModel;
    }
    if s[sep] == '/' || s[sep] == '\\' {
      sep := sep + 1;
    }
    if dot - sep >= 32 {
      dot := sep + 32 - 1;
    }
    out := s[sep..dot];
  }

  /** COM_FileBase's first scan: back from the last character to a '.'
      or the start. */
  method LastDot(s: string) returns (dot: nat)
    requires |s| >= 1
    ensures dot == ScanBack(s, |s| - 1, {'.'})
  {
    dot := |s| - 1;
    while dot != 0 && s[dot] != '.'
      invariant dot < |s|
      invariant ScanBack(s, |s| - 1, {'.'}) == ScanBack(s, dot, {'.'})
    {
      dot := dot - 1;
    }
  }

  /** COM_FileBase's second scan: back from the '.' to a separator or the
      start. */
  method LastSeparator(s: string, dot: nat) returns (sep: nat)
    requires dot < |s|
    ensures sep == ScanBack(s, dot, Separators)
  {
    sep := dot;
    while sep != 0 && s[sep] != '/' && s[sep] != '\\'
      invariant sep <= dot
      invariant ScanBack(s, dot, Separators) == ScanBack(s, sep, Separators)
    {
      sep := sep - 1;
    }
  }

  // ---------------------------------------------------------------------
  // COM_DefaultExtension

  /** Whether COM_DefaultExtension sees an extension: scanning back from the
      last character, a '.' comes before any '/' (index 0 is not looked at). */
  predicate HasExtension(p: string)
    requires |p| >= 1
  {
    var k := ScanBack(p, |p| - 1, {'/', '.'});
    k > 0 && p[k] == '.'
  }

  /** HasExtension in plain terms: some '.' after index 0 with no '/'
      after it. */
  lemma HasExtensionMeans(p: string)
    requires |p| >= 1
    ensures HasExtension(p) <==>
      exists i :: 1 <= i < |p| && p[i] == '.' && forall j :: i < j < |p| ==> p[j] != '/'
  {
    var k := ScanBack(p, |p| - 1, {'/', '.'});
    if !HasExtension(p) {
      forall i | 1 <= i < |p| && p[i] == '.'
        ensures exists j :: i < j < |p| && p[j] == '/'
      {
        assert i <= k;
        assert k > 0 && p[k] == '/';
        assert i < k;
      }
    }
  }

  /** COM_DefaultExtension: append `ext` when the path has no extension. */
  method DefaultExtension(p: string, ext: string) returns (r: string)
    requires |p| >= 1
    ensures r == if HasExtension(p) then p else p + ext
  {
    var src: nat := |p| - 1;
    while p[src] != '/' && src != 0
      invariant src < |p|
      decreases src
      invariant ScanBack(p, |p| - 1, {'/', '.'}) == ScanBack(p, src, {'/', '.'})
    {
      if p[src] == '.' {
        return p;
      }
      src := src - 1;
    }
    r := p + ext;
  }
}
