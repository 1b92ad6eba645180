/** Bytes, code-point starts, and counting positions in a flat byte sequence.
    Everything the editor stores is finally compared with such a sequence. */
module Bytes {

  type byte = x: int | 0 <= x < 256
  type bytes = seq<byte>

  const LF: byte := 10
  const CR: byte := 13
  const TAB: byte := 9

  /** (b & 0xc0) == 0x80: a UTF-8 continuation byte. */
  predicate IsCont(b: byte) {
    0x80 <= b < 0xC0
  }

  /** Offset i does not cut a code point. */
  predicate IsBoundary(s: bytes, i: nat) {
    i <= |s| && (i == |s| || !IsCont(s[i]))
  }

  /** The bytes of an ASCII text. */
  function Lit(t: string): (r: bytes)
    requires forall i :: 0 <= i < |t| ==> t[i] < 128 as char
    ensures |r| == |t| && forall i :: 0 <= i < |t| ==> r[i] == t[i] as int
  {
    seq(|t|, i requires 0 <= i < |t| => t[i] as int)
  }

  /** Remove n bytes at offset at and put t there. */
  function Splice(s: bytes, at: nat, n: nat, t: bytes): bytes
    requires at + n <= |s|
  {
    s[..at] + t + s[at + n..]
  }

  function Min(a: nat, b: nat): nat {
    if a < b then a else b
  }

  function Max(a: nat, b: nat): nat {
    if a < b then b else a
  }

  lemma SliceSlice(s: bytes, a: nat, b: nat, i: nat, j: nat)
    requires i <= j && a + j <= b <= |s|
    ensures s[a..b][i..j] == s[a + i..a + j]
  {
    assert forall k :: 0 <= k < j - i ==> s[a..b][i..j][k] == s[a + i..a + j][k];
  }

  lemma SliceTake(s: bytes, a: nat, b: nat, j: nat)
    requires a + j <= b <= |s|
    ensures s[a..b][..j] == s[a..a + j]
  {
  }

  lemma SliceDrop(s: bytes, a: nat, b: nat, i: nat)
    requires a + i <= b <= |s|
    ensures s[a..b][i..] == s[a + i..b]
  {
  }

  lemma PrefixSlice(s: bytes, t: bytes, a: nat, b: nat)
    requires s <= t && a <= b <= |s|
    ensures s[a..b] == t[a..b]
  {
    assert forall i :: 0 <= i < |s| ==> s[i] == t[i];
  }

  // ---- Counting ----------------------------------------------------------

  /** The two quantities a piece aggregates: newlines and code-point starts. */
  datatype Metric = Newlines | Starts

  predicate Hit(m: Metric, b: byte) {
    match m
    case Newlines => b == LF
    case Starts => !IsCont(b)
  }

  function Count(m: Metric, s: bytes): nat {
    if s == [] then 0 else Count(m, s[..|s| - 1]) + (if Hit(m, s[|s| - 1]) then 1 else 0)
  }

  lemma {:induction false} CountConcat(m: Metric, a: bytes, b: bytes)
    ensures Count(m, a + b) == Count(m, a) + Count(m, b)
  {
    if b == [] {
      assert a + b == a;
    } else {
      assert (a + b)[..|a + b| - 1] == a + b[..|b| - 1];
      CountConcat(m, a, b[..|b| - 1]);
    }
  }

  lemma CountStep(m: Metric, s: bytes, i: nat)
    requires i < |s|
    ensures Count(m, s[..i + 1]) == Count(m, s[..i]) + (if Hit(m, s[i]) then 1 else 0)
  {
    assert s[..i + 1][..i] == s[..i];
  }

  lemma CountMono(m: Metric, s: bytes, i: nat, j: nat)
    requires i <= j <= |s|
    ensures Count(m, s[..j]) == Count(m, s[..i]) + Count(m, s[i..j])
    ensures Count(m, s[..i]) <= Count(m, s[..j])
  {
    assert s[..j] == s[..i] + s[i..j];
    CountConcat(m, s[..i], s[i..j]);
  }

  lemma CountSplit(m: Metric, s: bytes, i: nat)
    requires i <= |s|
    ensures Count(m, s) == Count(m, s[..i]) + Count(m, s[i..])
  {
    assert s == s[..i] + s[i..];
    CountConcat(m, s[..i], s[i..]);
  }

  // ---- Lines -------------------------------------------------------------

  /** Number of the line that holds offset at; offsets past the end clamp. */
  function LineOf(s: bytes, at: nat): nat {
    Count(Newlines, s[..Min(at, |s|)])
  }

  /** r is the offset just after the line-th newline. */
  predicate AfterNewline(s: bytes, line: nat, r: nat) {
    0 < r <= |s| && s[r - 1] == LF && Count(Newlines, s[..r]) == line
  }

  /** First offset of a line; rows past the last one clamp to the end. */
  function LineStart(s: bytes, line: nat): (r: nat)
    ensures r <= |s|
    ensures line == 0 ==> r == 0
    ensures 0 < line <= Count(Newlines, s) ==> AfterNewline(s, line, r)
    ensures line > Count(Newlines, s) ==> r == |s|
  {
    if line == 0 then 0
    else if line > Count(Newlines, s) then |s|
    else NthNewline(s, line)
  }

  function NthNewline(s: bytes, line: nat): (r: nat)
    requires 0 < line <= Count(Newlines, s)
    ensures AfterNewline(s, line, r)
  {
    var p := s[..|s| - 1];
    if line <= Count(Newlines, p) then
      var r := NthNewline(p, line);
      assert s[..r] == p[..r];
      r
    else
      assert s[..|s|] == s;
      |s|
  }

  lemma AfterNewlineUnique(s: bytes, line: nat, r: nat, q: nat)
    requires AfterNewline(s, line, r) && AfterNewline(s, line, q)
    ensures r == q
  {
    if r < q {
      CountMono(Newlines, s, r, q - 1);
      CountStep(Newlines, s, q - 1);
    } else if q < r {
      CountMono(Newlines, s, q, r - 1);
      CountStep(Newlines, s, r - 1);
    }
  }

  lemma AfterNewlineLe(s: bytes, line: nat, r: nat, at: nat)
    requires AfterNewline(s, line, r) && at <= |s|
    ensures r <= at <==> line <= Count(Newlines, s[..at])
  {
    if r <= at {
      CountMono(Newlines, s, r, at);
    } else {
      CountMono(Newlines, s, at, r - 1);
      CountStep(Newlines, s, r - 1);
    }
  }

  /** An offset is on line `line` exactly from its start on. */
  lemma LineStartLe(s: bytes, line: nat, at: nat)
    requires at <= |s| && line <= Count(Newlines, s)
    ensures LineStart(s, line) <= at <==> line <= LineOf(s, at)
  {
    var r := LineStart(s, line);
    if line > 0 {
      AfterNewlineLe(s, line, r, at);
    }
  }

  /** The line of a line's start is the line itself. */
  lemma LineRoundTrip(s: bytes, line: nat)
    requires line <= Count(Newlines, s)
    ensures LineOf(s, LineStart(s, line)) == line
  {
    assert s[..0] == [];
  }

  /** From the start of at's line up to at there is no newline. */
  lemma NoNewlineBefore(s: bytes, at: nat)
    requires at <= |s|
    ensures LineOf(s, at) <= Count(Newlines, s)
    ensures LineStart(s, LineOf(s, at)) <= at
    ensures LF !in s[LineStart(s, LineOf(s, at))..at]
  {
    CountSplit(Newlines, s, at);
    var line := LineOf(s, at);
    LineStartLe(s, line, at);
    var r := LineStart(s, line);
    LineRoundTrip(s, line);
    CountMono(Newlines, s, r, at);
    NoHits(Newlines, s[r..at]);
  }

  lemma {:induction false} NoHits(m: Metric, s: bytes)
    requires Count(m, s) == 0
    ensures forall i :: 0 <= i < |s| ==> !Hit(m, s[i])
  {
    if s != [] {
      NoHits(m, s[..|s| - 1]);
    }
  }

  lemma {:induction false} NoHitsCount(m: Metric, s: bytes)
    requires forall i :: 0 <= i < |s| ==> !Hit(m, s[i])
    ensures Count(m, s) == 0
  {
    if s != [] {
      NoHitsCount(m, s[..|s| - 1]);
    }
  }

  /** Lines that start inside a common prefix start at the same offset. */
  lemma LineStartPrefix(s: bytes, t: bytes, k: nat, line: nat)
    requires k <= |s| && k <= |t| && s[..k] == t[..k]
    requires line <= Count(Newlines, s[..k])
    ensures LineStart(s, line) == LineStart(t, line) <= k
  {
    CountSplit(Newlines, s, k);
    CountSplit(Newlines, t, k);
    if line > 0 {
      var r := LineStart(s[..k], line);
      assert s[..r] == s[..k][..r] && t[..r] == s[..k][..r];
      AfterNewlineUnique(s, line, r, LineStart(s, line));
      AfterNewlineUnique(t, line, r, LineStart(t, line));
    }
  }

  lemma LineStartMono(s: bytes, line: nat)
    ensures LineStart(s, line) <= LineStart(s, line + 1)
  {
    if line < Count(Newlines, s) {
      LineRoundTrip(s, line + 1);
      LineStartLe(s, line, LineStart(s, line + 1));
    }
  }

  /** The bytes of a physical line, without its newline. */
  function LineEnd(s: bytes, line: nat): (z: nat)
    ensures z <= |s|
  {
    var z := LineStart(s, line + 1);
    if z > LineStart(s, line) && s[z - 1] == LF then z - 1 else z
  }

  function Line(s: bytes, line: nat): bytes {
    LineStartMono(s, line);
    s[LineStart(s, line)..LineEnd(s, line)]
  }

  /** Lines that end before offset k do not depend on what follows it. */
  lemma LinePrefix(s: bytes, t: bytes, k: nat, line: nat)
    requires k <= |s| && k <= |t| && s[..k] == t[..k]
    requires line < Count(Newlines, s[..k])
    ensures Line(s, line) == Line(t, line)
  {
    LineStartPrefix(s, t, k, line);
    LineStartPrefix(s, t, k, line + 1);
    LineStartMono(s, line);
    SamePrefix(s, t, k, LineStart(s, line), LineStart(s, line + 1));
  }

  lemma SamePrefix(s: bytes, t: bytes, k: nat, a: nat, z: nat)
    requires a <= z <= k <= |s| && k <= |t| && s[..k] == t[..k]
    ensures s[a..z] == t[a..z]
    ensures a < z ==> s[z - 1] == t[z - 1] && s[a..z - 1] == t[a..z - 1]
  {
    PrefixSlice(s[..k], s, a, z);
    PrefixSlice(s[..k], t, a, z);
    if a < z {
      assert s[a..z][z - 1 - a] == s[z - 1];
      SliceSlice(s, a, z, 0, z - 1 - a);
      SliceSlice(t, a, z, 0, z - 1 - a);
    }
  }

  /** A physical line without its newline holds no newline. */
  lemma LineHasNoNewline(s: bytes, line: nat)
    ensures LF !in Line(s, line)
  {
    LineStartMono(s, line);
    var a, z := LineStart(s, line), LineEnd(s, line);
    if line < Count(Newlines, s) {
      LineRoundTrip(s, line);
      LineRoundTrip(s, line + 1);
      CountMono(Newlines, s, a, z);
      CountStep(Newlines, s, z);
      NoHits(Newlines, s[a..z]);
    } else if line == Count(Newlines, s) {
      LineRoundTrip(s, line);
      CountSplit(Newlines, s, a);
      NoHits(Newlines, s[a..]);
      assert s[a..z] <= s[a..];
    }
  }

  /** A physical line ends at its newline, the last one at the end of the text. */
  lemma LineEndsThere(s: bytes, line: nat)
    requires line <= Count(Newlines, s)
    ensures LineStart(s, line) <= LineEnd(s, line)
    ensures line < Count(Newlines, s) ==> LineStart(s, line + 1) == LineEnd(s, line) + 1
    ensures line < Count(Newlines, s) ==> LineEnd(s, line) < |s| && s[LineEnd(s, line)] == 10
    ensures line == Count(Newlines, s) ==> LineEnd(s, line) == |s|
  {
    hide Count, LineStart;
    LineStartMono(s, line);
    if line < Count(Newlines, s) { NextLineStart(s, line); } else { LastLineEnds(s); }
  }

  lemma NextLineStart(s: bytes, line: nat)
    requires line < Count(Newlines, s)
    ensures LineStart(s, line) < LineStart(s, line + 1) && s[LineStart(s, line + 1) - 1] == LF
  {
    hide Count, NthNewline, LineOf;
    LineStartMono(s, line);
    LineRoundTrip(s, line);
    LineRoundTrip(s, line + 1);
    assert AfterNewline(s, line + 1, LineStart(s, line + 1));
  }

  lemma LastLineEnds(s: bytes)
    ensures LineEnd(s, Count(Newlines, s)) == |s|
  {
    hide Count;
    var line := Count(Newlines, s);
    var a := LineStart(s, line);
    LineRoundTrip(s, line);
    CountSplit(Newlines, s, a);
    NoHits(Newlines, s[a..]);
    if a < |s| { assert !Hit(Newlines, s[a..][|s| - 1 - a]); }
  }

  // ---- Characters --------------------------------------------------------

  /** Number of code points before offset at; offsets past the end clamp. */
  function ByteToChar(s: bytes, at: nat): nat {
    Count(Starts, s[..Min(at, |s|)])
  }

  /** r is the boundary with exactly ch code points before it. */
  predicate CharAt(s: bytes, ch: nat, r: nat) {
    IsBoundary(s, r) && Count(Starts, s[..r]) == ch
  }

  lemma CharAtUnique(s: bytes, ch: nat, r: nat, q: nat)
    requires CharAt(s, ch, r) && CharAt(s, ch, q)
    ensures r == q
  {
    if r < q {
      CountStep(Starts, s, r);
      CountMono(Starts, s, r + 1, q);
    } else if q < r {
      CountStep(Starts, s, q);
      CountMono(Starts, s, q + 1, r);
    }
  }

  /** Offset of code point ch; indices past the last one clamp to the end. */
  function CharToByte(s: bytes, ch: nat): (r: nat)
    ensures r <= |s|
    ensures ch <= Count(Starts, s) ==> CharAt(s, ch, r)
  {
    assert s[..|s|] == s;
    if ch >= Count(Starts, s) then |s|
    else NthStart(s, ch)
  }

  function NthStart(s: bytes, ch: nat): (r: nat)
    requires ch < Count(Starts, s)
    ensures r < |s| && !IsCont(s[r]) && Count(Starts, s[..r]) == ch
  {
    var p := s[..|s| - 1];
    if ch < Count(Starts, p) then
      var r := NthStart(p, ch);
      assert s[..r] == p[..r];
      r
    else |s| - 1
  }

  /** The two code-point conversions invert each other. */
  lemma CharRoundTrip(s: bytes, ch: nat, at: nat)
    ensures ByteToChar(s, CharToByte(s, ch)) == Min(ch, Count(Starts, s))
    ensures IsBoundary(s, at) ==> CharToByte(s, ByteToChar(s, at)) == at
  {
    assert s[..|s|] == s;
    if IsBoundary(s, at) {
      CountSplit(Starts, s, at);
      CharAtUnique(s, ByteToChar(s, at), at, CharToByte(s, ByteToChar(s, at)));
    }
  }
}
