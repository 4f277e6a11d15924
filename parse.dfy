/** COM_Parse: the tokeniser for scripts and entity text.  It skips white
    space and `//` comments, reads a quoted string, one of the single
    characters `{ } ( ) ' :`, or a word, and leaves the token in the global
    `com_token`.

    The text is the bytes before its terminating 0.  C compares the bytes as
    `signed char`, so a byte of 128 or more is negative: it counts as white
    space and ends a word. */
module Parse {
  import opened CTypes

  /** The size of `com_token`. */
  const TOKEN_SIZE: nat := 1024

  const SPACE: byte := 32
  const NEWLINE: byte := 10
  const SLASH: byte := 47
  const QUOTE: byte := 34
  const COLON: byte := 58

  /** The characters that end a word: `{ } ( ) '`. */
  const WordBreaks: set<byte> := {123, 125, 40, 41, 39}

  /** The characters that are a token on their own: a word break or ':'. */
  const Singles: set<byte> := WordBreaks + {COLON}

  /** The byte at `p`; the terminator after the text reads as 0. */
  function At(data: seq<byte>, p: nat): byte
  {
    if p < |data| then data[p] else 0
  }

  /** The C test `c <= ' '` on a `signed char`. */
  predicate IsBlank(b: byte)
  {
    SignedChar(b) <= SPACE
  }

  /** The first index from `p` that is the end or not blank. */
  function SkipBlanks(data: seq<byte>, p: nat): (q: nat)
    requires p <= |data|
    ensures p <= q <= |data|
    ensures forall i :: p <= i < q ==> data[i] != 0 && IsBlank(data[i])
    ensures At(data, q) == 0 || !IsBlank(At(data, q))
    decreases |data| - p
  {
    if p == |data| || data[p] == 0 || !IsBlank(data[p]) then p else SkipBlanks(data, p + 1)
  }

  /** The first index from `p` that is the end or a newline. */
  function SkipLine(data: seq<byte>, p: nat): (q: nat)
    requires p <= |data|
    ensures p <= q <= |data|
    ensures forall i :: p <= i < q ==> data[i] != 0 && data[i] != NEWLINE
    ensures At(data, q) == 0 || At(data, q) == NEWLINE
    decreases |data| - p
  {
    if p == |data| || data[p] == 0 || data[p] == NEWLINE then p else SkipLine(data, p + 1)
  }

  /** Whether a `//` comment starts at `q`. */
  predicate CommentAt(data: seq<byte>, q: nat)
  {
    At(data, q) == SLASH && At(data, q + 1) == SLASH
  }

  /** The `skipwhite` label: blanks and comments, in any number; `None` when
      the text ends first. */
  function SkipWhite(data: seq<byte>, p: nat): (r: Option<nat>)
    requires p <= |data|
    ensures r.Some? ==> p <= r.value < |data| && data[r.value] != 0
    ensures r.Some? ==> !IsBlank(data[r.value]) && !CommentAt(data, r.value)
    decreases |data| - p
  {
    var q := SkipBlanks(data, p);
    if At(data, q) == 0 then None
    else if CommentAt(data, q) then SkipWhite(data, SkipLine(data, q))
    else Some(q)
  }

  /** The end of a quoted string's text: the first '"' or the end. */
  function QuoteEnd(data: seq<byte>, p: nat): (q: nat)
    requires p <= |data|
    ensures p <= q <= |data|
    ensures forall i :: p <= i < q ==> data[i] != 0 && data[i] != QUOTE
    ensures At(data, q) == 0 || At(data, q) == QUOTE
    decreases |data| - p
  {
    if p == |data| || data[p] == 0 || data[p] == QUOTE then p else QuoteEnd(data, p + 1)
  }

  /** The end of a word: the first blank, end or word break from `p`. */
  function WordEnd(data: seq<byte>, p: nat): (q: nat)
    requires p <= |data|
    ensures p <= q <= |data|
    ensures forall i :: p <= i < q ==> !IsBlank(data[i]) && data[i] !in WordBreaks
    ensures IsBlank(At(data, q)) || At(data, q) in WordBreaks
    decreases |data| - p
  {
    if p == |data| || IsBlank(data[p]) || data[p] in WordBreaks then p else WordEnd(data, p + 1)
  }

  /** What COM_Parse leaves behind: the position it returns (`None` for
      NULL) and the token text in `com_token`. */
  datatype Parsed = Parsed(next: Option<nat>, token: seq<byte>)

  /** COM_Parse on the text `data` from `p`; `None` is a NULL pointer. */
  function ParseOf(data: Option<seq<byte>>, p: nat): Parsed
    requires data.Some? ==> p <= |data.value|
  {
    if data.None? then Parsed(None, [])
    else
      var d := data.value;
      match SkipWhite(d, p)
      case None => Parsed(None, [])
      case Some(q) => TokenAt(d, q)
  }

  /** The token that starts at `q`, past the white space: a quoted string,
      a one-character token or a word. */
  function TokenAt(d: seq<byte>, q: nat): Parsed
    requires q < |d|
  {
    if d[q] == QUOTE then
      var e := QuoteEnd(d, q + 1);
      Parsed(if At(d, e) == 0 then None else Some(e + 1), d[q + 1..e])
    else if d[q] in Singles then Parsed(Some(q + 1), [d[q]])
    else
      var e := WordEnd(d, q + 1);
      Parsed(Some(e), d[q..e])
  }

  // ---------------------------------------------------------------------
  // Properties

  /** A returned position is past the start and inside the text, so
      repeated calls walk through it and stop. */
  lemma ParseAdvances(data: seq<byte>, p: nat)
    requires p <= |data|
    ensures ParseOf(Some(data), p).next.Some? ==> p < ParseOf(Some(data), p).next.value <= |data|
  {
  }

  /** NULL comes back exactly at the end of the text or on a quoted string
      that is not closed; the token is then empty unless the string was
      opened. */
  lemma ParseNullCases(data: seq<byte>, p: nat)
    requires p <= |data|
    ensures ParseOf(Some(data), p).next.None? <==>
      SkipWhite(data, p).None? ||
      (data[SkipWhite(data, p).value] == QUOTE && At(data, QuoteEnd(data, SkipWhite(data, p).value + 1)) == 0)
    ensures SkipWhite(data, p).None? ==> ParseOf(Some(data), p).token == []
  {
  }

  /** A word token is not empty, holds no blank and no word break, and a
      ':' inside it does not split it. */
  lemma WordTokenShape(data: seq<byte>, p: nat)
    requires p <= |data|
    requires SkipWhite(data, p).Some?
    requires data[SkipWhite(data, p).value] != QUOTE && data[SkipWhite(data, p).value] !in Singles
    ensures var t := ParseOf(Some(data), p).token;
      t != [] && forall i :: 0 <= i < |t| ==> !IsBlank(t[i]) && t[i] !in WordBreaks
  {
    var q := SkipWhite(data, p).value;
    var e := WordEnd(data, q + 1);
    var t := data[q..e];
    forall i | 0 <= i < |t| ensures !IsBlank(t[i]) && t[i] !in WordBreaks {
      assert t[i] == data[q + i];
    }
  }

  /** A word read back on its own is the same single token. */
  lemma {:induction false} WordRoundTrip(w: seq<byte>)
    requires w != [] && w[0] != QUOTE && w[0] !in Singles && !CommentAt(w, 0)
    requires forall i :: 0 <= i < |w| ==> !IsBlank(w[i]) && w[i] !in WordBreaks
    ensures ParseOf(Some(w), 0) == Parsed(Some(|w|), w)
  {
    assert w[0] != 0;
    assert SkipBlanks(w, 0) == 0;
    assert SkipWhite(w, 0) == Some(0);
    WordEndAtEnd(w, 1);
  }

  lemma {:induction false} WordEndAtEnd(w: seq<byte>, p: nat)
    requires p <= |w|
    requires forall i :: 0 <= i < |w| ==> !IsBlank(w[i]) && w[i] !in WordBreaks
    ensures WordEnd(w, p) == |w|
    decreases |w| - p
  {
    if p < |w| {
      WordEndAtEnd(w, p + 1);
    }
  }

  /** A quoted string read back gives its text, and the position after the
      closing quote. */
  lemma {:induction false} QuotedRoundTrip(t: seq<byte>, rest: seq<byte>)
    requires forall i :: 0 <= i < |t| ==> t[i] != 0 && t[i] != QUOTE
    ensures ParseOf(Some([QUOTE] + t + [QUOTE] + rest), 0) == Parsed(Some(|t| + 2), t)
  {
    var d := [QUOTE] + t + [QUOTE] + rest;
    assert SkipBlanks(d, 0) == 0;
    assert SkipWhite(d, 0) == Some(0);
    QuoteEndAt(d, 1, |t| + 1);
    assert d[1..|t| + 1] == t;
  }

  lemma {:induction false} QuoteEndAt(d: seq<byte>, p: nat, e: nat)
    requires p <= e < |d| && d[e] == QUOTE
    requires forall i :: p <= i < e ==> d[i] != 0 && d[i] != QUOTE
    ensures QuoteEnd(d, p) == e
    decreases e - p
  {
    if p < e {
      QuoteEndAt(d, p + 1, e);
    }
  }

  /** Each of `{ } ( ) ' :` is a token on its own, whatever follows it. */
  lemma SingleRoundTrip(c: byte, rest: seq<byte>)
    requires c in Singles
    ensures ParseOf(Some([c] + rest), 0) == Parsed(Some(1), [c])
  {
    var d := [c] + rest;
    assert d[0] == c && !IsBlank(c) && c != SLASH && c != QUOTE;
    assert SkipBlanks(d, 0) == 0;
    assert SkipWhite(d, 0) == Some(0);
  }

  /** "host:port" is one token: ':' splits only when it starts a token. */
  lemma HostPortIsOneToken()
    ensures ParseOf(Some([104, 58, 49]), 0) == Parsed(Some(3), [104, 58, 49])
  {
    WordRoundTrip([104, 58, 49]);
  }

  /** A comment line is skipped: "// c\nfoo" gives "foo". */
  lemma CommentIsSkipped()
    ensures ParseOf(Some([47, 47, 32, 99, 10, 102, 111, 111]), 0) == Parsed(Some(8), [102, 111, 111])
  {
    var d: seq<byte> := [47, 47, 32, 99, 10, 102, 111, 111];
    assert SkipBlanks(d, 0) == 0;
    assert SkipLine(d, 0) == 4;
    assert SkipBlanks(d, 4) == 5;
    assert SkipWhite(d, 4) == Some(5);
    assert WordEnd(d, 6) == 8;
    assert d[5..8] == [102, 111, 111];
  }

  /** An unterminated quoted string gives NULL, with its text left in
      `com_token`. */
  lemma UnterminatedQuote()
    ensures ParseOf(Some([34, 97, 98]), 0) == Parsed(None, [97, 98])
  {
    var d: seq<byte> := [34, 97, 98];
    assert SkipBlanks(d, 0) == 0;
    assert QuoteEnd(d, 1) == 3;
    assert d[1..3] == [97, 98];
  }

  /** A byte of 128 or more is white space to the `signed char` test. */
  lemma HighBytesAreBlank(b: byte)
    requires b >= 128
    ensures IsBlank(b)
  {
  }

  // ---------------------------------------------------------------------
  // The tokeniser's state

  class Tokenizer {
    /** `com_token`. */
    const token: array<byte>

    constructor ()
      ensures token.Length == TOKEN_SIZE && fresh(token)
    {
      token := new byte[TOKEN_SIZE];
    }

    /** The token text: the bytes before the first 0. */
    ghost predicate Holds(t: seq<byte>)
      reads this, token
    {
      |t| < token.Length && token[..|t|] == t && token[|t|] == 0
    }

    /** COM_Parse.  Nothing bounds the writes into `com_token`, so the
        caller must only pass text whose token fits. */
    method Parse(data: Option<seq<byte>>, p: nat) returns (r: Option<nat>)
      requires token.Length == TOKEN_SIZE
      requires data.Some? ==> p <= |data.value| && NoNul(data.value)
      requires data.Some? ==> |ParseOf(data, p).token| < TOKEN_SIZE
      modifies token
      ensures r == ParseOf(data, p).next
      ensures Holds(ParseOf(data, p).token)
    {
      token[0] := 0;
      if data.None? {
        return None;
      }
      var d := data.value;
      var q := SkipWhiteLoop(d, p);
      if q.None? {
        return None;
      }
      var i := q.value;
      r := ReadToken(d, i);
    }

    /** The part of COM_Parse after the white space: copy the token at `i`
        into `com_token` and return the position after it. */
    method ReadToken(d: seq<byte>, i: nat) returns (r: Option<nat>)
      requires token.Length == TOKEN_SIZE && i < |d| && NoNul(d)
      requires |TokenAt(d, i).token| < TOKEN_SIZE
      modifies token
      ensures r == TokenAt(d, i).next
      ensures Holds(TokenAt(d, i).token)
    {
      if d[i] == QUOTE {
        var e, len := CopyQuoted(d, i + 1);
        Terminate(len);
        if e == |d| {
          return None;
        }
        return Some(e + 1);
      }
      if d[i] in Singles {
        token[0] := d[i];
        token[1] := 0;
        assert token[..1] == [d[i]];
        return Some(i + 1);
      }
      var e := CopyWord(d, i);
      Terminate(e - i);
      return Some(e);
    }

    /** `com_token[len] = 0`. */
    method Terminate(len: nat)
      requires len < token.Length
      modifies token
      ensures token[..len] == old(token[..len]) && token[len] == 0
    {
      token[len] := 0;
    }

    /** The `skipwhite` loop with its `goto`. */
    static method SkipWhiteLoop(d: seq<byte>, p: nat) returns (r: Option<nat>)
      requires p <= |d| && NoNul(d)
      ensures r == SkipWhite(d, p)
    {
      var i := p;
      while true
        invariant i <= |d|
        invariant SkipWhite(d, i) == SkipWhite(d, p)
        decreases |d| - i
      {
        var q := BlankRun(d, i);
        if q == |d| {
          return None;
        }
        if !(d[q] == SLASH && At(d, q + 1) == SLASH) {
          return Some(q);
        }
        i := LineRun(d, q);
      }
    }

    /** `while ((c = *data) <= ' ')`: step over blanks. */
    static method BlankRun(d: seq<byte>, p: nat) returns (q: nat)
      requires p <= |d| && NoNul(d)
      ensures q == SkipBlanks(d, p)
    {
      q := p;
      while q < |d| && IsBlank(d[q])
        invariant p <= q <= |d|
        invariant SkipBlanks(d, q) == SkipBlanks(d, p)
      {
        q := q + 1;
      }
    }

    /** `while (*data && *data != '\n')`: step to the end of a comment. */
    static method LineRun(d: seq<byte>, p: nat) returns (q: nat)
      requires p <= |d| && NoNul(d)
      ensures q == SkipLine(d, p)
    {
      q := p;
      while q < |d| && d[q] != NEWLINE
        invariant p <= q <= |d|
        invariant SkipLine(d, q) == SkipLine(d, p)
      {
        q := q + 1;
      }
    }

    /** The quoted-string loop: copy up to the closing quote or the end. */
    method CopyQuoted(d: seq<byte>, p: nat) returns (e: nat, len: nat)
      requires token.Length == TOKEN_SIZE && p <= |d| && NoNul(d)
      requires QuoteEnd(d, p) - p < TOKEN_SIZE
      modifies token
      ensures e == QuoteEnd(d, p) && len == e - p
      ensures token[..len] == d[p..e]
    {
      e := p;
      len := 0;
      while e < |d| && d[e] != QUOTE
        invariant p <= e <= |d| && len == e - p
        invariant QuoteEnd(d, e) == QuoteEnd(d, p)
        invariant token[..len] == d[p..e]
      {
        token[len] := d[e];
        e := e + 1;
        len := len + 1;
        assert d[p..e] == d[p..e - 1] + [d[e - 1]];
      }
    }

    /** The word loop: copy while the next byte is neither blank nor a word
        break; ':' does not stop it. */
    method CopyWord(d: seq<byte>, q: nat) returns (e: nat)
      requires token.Length == TOKEN_SIZE && q < |d| && NoNul(d)
      requires WordEnd(d, q + 1) - q < TOKEN_SIZE
      modifies token
      ensures e == WordEnd(d, q + 1)
      ensures token[..e - q] == d[q..e]
    {
      e := q;
      token[0] := d[q];
      e := q + 1;
      assert token[..1] == d[q..e];
      while e < |d| && !IsBlank(d[e]) && d[e] !in WordBreaks
        invariant q + 1 <= e <= |d|
        invariant WordEnd(d, e) == WordEnd(d, q + 1)
        invariant token[..e - q] == d[q..e]
      {
        token[e - q] := d[e];
        e := e + 1;
        assert d[q..e] == d[q..e - 1] + [d[e - 1]];
      }
    }
  }
}
