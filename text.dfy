/**
  The string operations of the host language that the selector relies on:
  `str.strip()`, `str.startswith`, `sep in s`, `str.split(sep)`, `sep.join(parts)`,
  `str.lower()`, and the newline translation of a file opened with `newline='\r\n'`.
  Strings are sequences of code points; whitespace and case are restricted to ASCII.
 */
module Text {
  import opened Wrappers

  // ---------------------------------------------------------------------------
  // Whitespace and stripping
  // ---------------------------------------------------------------------------

  /** `str.isspace` on the ASCII range: TAB, LF, VT, FF, CR, the four information
      separators 0x1C-0x1F, and SPACE. */
  predicate IsSpace(c: char) {
    9 <= c as int <= 13 || 28 <= c as int <= 32
  }

  predicate AllSpace(s: string) {
    forall i :: 0 <= i < |s| ==> IsSpace(s[i])
  }

  /** `s.lstrip()`: the suffix of `s` left after its leading whitespace. */
  function StripLeft(s: string): (r: string)
    ensures |r| <= |s| && r == s[|s| - |r|..]
    ensures AllSpace(s[..|s| - |r|])
    ensures r == [] || !IsSpace(r[0])
    decreases |s|
  {
    if |s| > 0 && IsSpace(s[0]) then StripLeft(s[1..]) else s
  }

  /** `s.rstrip()`: the prefix of `s` left after its trailing whitespace. */
  function StripRight(s: string): (r: string)
    ensures |r| <= |s| && r == s[..|r|]
    ensures AllSpace(s[|r|..])
    ensures r == [] || !IsSpace(r[|r| - 1])
    decreases |s|
  {
    if |s| > 0 && IsSpace(s[|s| - 1]) then StripRight(s[..|s| - 1]) else s
  }

  /** `s.strip()`. */
  function Strip(s: string): (r: string)
    ensures r == [] || (!IsSpace(r[0]) && !IsSpace(r[|r| - 1]))
  {
    StripRight(StripLeft(s))
  }

  /** Stripping removes exactly the whitespace padding around a string that does not
      itself begin or end with whitespace. */
  lemma StripPadded(pre: string, x: string, post: string)
    requires AllSpace(pre) && AllSpace(post)
    requires x == [] || (!IsSpace(x[0]) && !IsSpace(x[|x| - 1]))
    ensures Strip(pre + x + post) == x
  {
    assert pre + x + post == pre + (x + post);
    StripLeftSkips(pre, x + post);
    if x == [] {
      assert x + post == post;
      StripLeftAllSpace(post);
    } else {
      StripLeftKeeps(x + post);
      StripRightSkips(x, post);
    }
  }

  lemma StripLeftKeeps(s: string)
    requires s == [] || !IsSpace(s[0])
    ensures StripLeft(s) == s
  {
  }

  lemma StripLeftAllSpace(s: string)
    requires AllSpace(s)
    ensures StripLeft(s) == []
  {
  }

  lemma {:induction false} StripLeftSkips(pre: string, y: string)
    requires AllSpace(pre)
    ensures StripLeft(pre + y) == StripLeft(y)
  {
    if pre == [] {
      assert pre + y == y;
    } else {
      assert (pre + y)[1..] == pre[1..] + y;
      StripLeftSkips(pre[1..], y);
    }
  }

  lemma {:induction false} StripRightSkips(y: string, post: string)
    requires AllSpace(post)
    requires y == [] || !IsSpace(y[|y| - 1])
    ensures StripRight(y + post) == y
  {
    if post == [] {
      assert y + post == y;
    } else {
      var p := post[..|post| - 1];
      assert (y + post)[..|y + post| - 1] == y + p;
      StripRightSkips(y, p);
    }
  }

  /** The stripped string is a slice of the original. */
  lemma StripIsSlice(s: string) returns (a: nat)
    ensures a + |Strip(s)| <= |s| && Strip(s) == s[a..a + |Strip(s)|]
  {
    var l := StripLeft(s);
    a := |s| - |l|;
    var r := StripRight(l);
    assert r == l[..|r|];
    assert l == s[a..];
  }

  // ---------------------------------------------------------------------------
  // Prefixes and substring search
  // ---------------------------------------------------------------------------

  /** `s.startswith(p)`. */
  predicate StartsWith(s: string, p: string) {
    |p| <= |s| && s[..|p|] == p
  }

  predicate EndsWith(s: string, p: string) {
    |p| <= |s| && s[|s| - |p|..] == p
  }

  /** `p` occurs in `s` starting at position `i`. */
  predicate OccursAt(s: string, p: string, i: nat) {
    i + |p| <= |s| && s[i..i + |p|] == p
  }

  /** `p` occurs nowhere in `s`. */
  predicate Avoids(s: string, p: string) {
    forall i: nat :: i <= |s| ==> !OccursAt(s, p, i)
  }

  /** The first position at or after `i` where `p` occurs in `s`. */
  function IndexFrom(s: string, p: string, i: nat): (r: Option<nat>)
    requires i <= |s|
    ensures r.Some? ==> i <= r.value && OccursAt(s, p, r.value)
    ensures r.Some? ==> forall j: nat :: i <= j < r.value ==> !OccursAt(s, p, j)
    ensures r.None? ==> forall j: nat :: i <= j ==> !OccursAt(s, p, j)
    decreases |s| - i
  {
    if i + |p| > |s| then None
    else if s[i..i + |p|] == p then Some(i)
    else IndexFrom(s, p, i + 1)
  }

  /** `s.find(p)`, with None for -1. */
  function IndexOf(s: string, p: string): (r: Option<nat>)
    ensures r.Some? ==> OccursAt(s, p, r.value) && forall j: nat :: j < r.value ==> !OccursAt(s, p, j)
    ensures r.None? <==> Avoids(s, p)
  {
    IndexFrom(s, p, 0)
  }

  /** `p in s`. */
  predicate Contains(s: string, p: string) {
    IndexOf(s, p).Some?
  }

  /** An occurrence inside a slice is an occurrence in the whole string. */
  lemma OccursInSlice(s: string, p: string, a: int, b: int, i: int)
    ensures 0 <= a <= b <= |s| && 0 <= i && OccursAt(s[a..b], p, i) ==> OccursAt(s, p, a + i)
  {
    if 0 <= a <= b <= |s| && 0 <= i && OccursAt(s[a..b], p, i) {
      forall k | 0 <= k < |p|
        ensures s[a + i..a + i + |p|][k] == p[k]
      {
        assert s[a..b][i..i + |p|][k] == p[k];
      }
    }
  }

  /** An occurrence that lies inside a slice is an occurrence in the slice. */
  lemma OccursInsideSlice(s: string, p: string, a: nat, b: nat, i: nat)
    requires a <= b <= |s| && OccursAt(s, p, a + i) && a + i + |p| <= b
    ensures OccursAt(s[a..b], p, i)
  {
    forall k | 0 <= k < |p|
      ensures s[a..b][i..i + |p|][k] == p[k]
    {
      assert s[a + i..a + i + |p|][k] == p[k];
    }
  }

  /** An occurrence, letter by letter. */
  lemma OccursLetters(s: string, p: string, i: int, k: int)
    ensures 0 <= i && 0 <= k < |p| && OccursAt(s, p, i) ==> s[i + k] == p[k]
  {
    if 0 <= i && 0 <= k < |p| && OccursAt(s, p, i) {
      assert s[i..i + |p|][k] == s[i + k];
    }
  }

  /** A string that avoids `p` keeps avoiding it when cut down to a slice. */
  lemma SliceAvoids(s: string, p: string, a: nat, b: nat)
    requires a <= b <= |s| && Avoids(s, p)
    ensures Avoids(s[a..b], p)
  {
    forall i: nat | OccursAt(s[a..b], p, i)
      ensures false
    {
      OccursInSlice(s, p, a, b, i);
    }
  }

  /** Cutting `s` just after the first occurrence of `p` keeps it the first occurrence. */
  lemma FirstOccurrenceInPrefix(s: string, p: string, i: nat)
    requires |p| > 0 && IndexOf(s, p) == Some(i)
    ensures IndexOf(s[..i + |p|], p) == Some(i)
    ensures Avoids(s[..i], p)
  {
    var t := s[..i + |p|];
    assert t[i..i + |p|] == s[i..i + |p|];
    assert OccursAt(t, p, i);
    assert t == s[0..i + |p|];
    forall j: nat | j < i
      ensures !OccursAt(t, p, j)
    {
      OccursInSlice(s, p, 0, i + |p|, j);
    }
    assert s[..i] == s[0..i];
    forall j: nat | OccursAt(s[..i], p, j)
      ensures false
    {
      OccursInSlice(s, p, 0, i, j);
    }
  }

  // ---------------------------------------------------------------------------
  // Splitting and joining
  // ---------------------------------------------------------------------------

  /** `sep.join(parts)`. */
  function Join(parts: seq<string>, sep: string): string {
    if |parts| == 0 then ""
    else if |parts| == 1 then parts[0]
    else parts[0] + sep + Join(parts[1..], sep)
  }

  /** `s.split(sep)`: cut `s` at every occurrence of `sep`, scanning left to right. */
  function Split(s: string, sep: string): (parts: seq<string>)
    requires |sep| > 0
    ensures |parts| >= 1
    decreases |s|
  {
    match IndexOf(s, sep)
    case None => [s]
    case Some(i) => [s[..i]] + Split(s[i + |sep|..], sep)
  }

  /** Joining the pieces of a split with the separator gives back the string. */
  lemma {:induction false} SplitJoin(s: string, sep: string)
    requires |sep| > 0
    ensures Join(Split(s, sep), sep) == s
    decreases |s|
  {
    match IndexOf(s, sep)
    case None =>
    case Some(i) =>
      var rest := s[i + |sep|..];
      var parts := Split(rest, sep);
      assert Split(s, sep) == [s[..i]] + parts;
      assert Join([s[..i]] + parts, sep) == s[..i] + sep + Join(parts, sep);
      SplitJoin(rest, sep);
      assert s == s[..i] + sep + rest;
  }

  /** No piece of a split contains the separator. */
  lemma {:induction false} SplitPiecesAvoid(s: string, sep: string)
    requires |sep| > 0
    ensures forall k :: 0 <= k < |Split(s, sep)| ==> Avoids(Split(s, sep)[k], sep)
    decreases |s|
  {
    match IndexOf(s, sep)
    case None =>
    case Some(i) =>
      FirstOccurrenceInPrefix(s, sep, i);
      SplitPiecesAvoid(s[i + |sep|..], sep);
  }

  /** The first piece of a split is the text before the first separator. */
  lemma SplitHead(s: string, sep: string, i: nat)
    requires |sep| > 0 && IndexOf(s, sep) == Some(i)
    ensures Split(s, sep)[0] == s[..i]
  {
  }

  // ---------------------------------------------------------------------------
  // Case
  // ---------------------------------------------------------------------------

  function LowerChar(c: char): char {
    if 'A' <= c <= 'Z' then (c as int + 32) as char else c
  }

  /** `s.lower()` on ASCII letters. */
  function Lower(s: string): string {
    seq(|s|, i requires 0 <= i < |s| => LowerChar(s[i]))
  }

  // ---------------------------------------------------------------------------
  // Line terminators
  // ---------------------------------------------------------------------------

  /** What a text file opened with `newline='\r\n'` stores for `s`:
      every line feed is written as carriage return + line feed. */
  function ToCrlf(s: string): (r: string)
    ensures |r| >= |s|
    ensures forall i :: 0 <= i < |r| && r[i] == '\n' ==> i > 0 && r[i - 1] == '\r'
  {
    if |s| == 0 then ""
    else (if s[0] == '\n' then "\r\n" else [s[0]]) + ToCrlf(s[1..])
  }

  /** The LF form of a CRLF text: every carriage return + line feed pair becomes a
      line feed. */
  function CrlfToLf(s: string): string {
    if |s| == 0 then ""
    else if |s| >= 2 && s[0] == '\r' && s[1] == '\n' then "\n" + CrlfToLf(s[2..])
    else [s[0]] + CrlfToLf(s[1..])
  }

  /** Writing with CRLF terminators loses nothing: the LF form is the text written. */
  lemma {:induction false} CrlfRoundTrip(s: string)
    ensures CrlfToLf(ToCrlf(s)) == s
  {
    if |s| > 0 {
      var rest := ToCrlf(s[1..]);
      CrlfRoundTrip(s[1..]);
      if s[0] == '\n' {
        assert ToCrlf(s) == "\r\n" + rest;
        assert ("\r\n" + rest)[2..] == rest;
      } else {
        assert ToCrlf(s) == [s[0]] + rest;
        assert ([s[0]] + rest)[1..] == rest;
        assert s[0] == '\r' ==> |rest| == 0 || rest[0] != '\n';
      }
      assert s == [s[0]] + s[1..];
    }
  }

  /** Extending a slice by one element. */
  lemma SliceSnoc<T>(s: seq<T>, i: nat, j: nat)
    requires i <= j < |s|
    ensures s[i..j + 1] == s[i..j] + [s[j]]
  {
    assert s[i..j + 1] == s[i..j] + [s[j]];
  }
}
