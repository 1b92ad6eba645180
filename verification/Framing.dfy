/** Newline-delimited requests: what a byte stream means as a list of lines. */
module Framing {
  import opened Bytes

  /** The complete lines of a stream, in order. */
  function Lines(s: bytes): seq<bytes> {
    if s == [] then []
    else if s[|s| - 1] == LF then Lines(s[..|s| - 1]) + [Rest(s[..|s| - 1])]
    else Lines(s[..|s| - 1])
  }

  /** The bytes after the last newline. */
  function Rest(s: bytes): bytes {
    if s == [] || s[|s| - 1] == LF then []
    else Rest(s[..|s| - 1]) + [s[|s| - 1]]
  }

  /** Each line followed by a newline. */
  function Joined(lines: seq<bytes>): bytes {
    if lines == [] then [] else Joined(lines[..|lines| - 1]) + lines[|lines| - 1] + [LF]
  }

  predicate NoNewlines(lines: seq<bytes>) {
    forall i :: 0 <= i < |lines| ==> LF !in lines[i]
  }

  lemma LinesSnoc(s: bytes, b: byte)
    ensures Lines(s + [b]) == if b == LF then Lines(s) + [Rest(s)] else Lines(s)
    ensures Rest(s + [b]) == if b == LF then [] else Rest(s) + [b]
  {
    assert (s + [b])[..|s|] == s;
  }

  lemma JoinedSnoc(lines: seq<bytes>, l: bytes)
    ensures Joined(lines + [l]) == Joined(lines) + l + [LF]
  {
    assert (lines + [l])[..|lines|] == lines;
  }

  lemma {:induction false} JoinedConcat(a: seq<bytes>, b: seq<bytes>)
    ensures Joined(a + b) == Joined(a) + Joined(b)
  {
    if b == [] {
      assert a + b == a;
    } else {
      var l := b[|b| - 1];
      JoinedConcat(a, b[..|b| - 1]);
      assert a + b == a + b[..|b| - 1] + [l];
      JoinedSnoc(a + b[..|b| - 1], l);
    }
  }

  /** Splitting loses nothing, and the parts hold no newline. */
  lemma {:induction false} SplitJoins(s: bytes)
    ensures Joined(Lines(s)) + Rest(s) == s
    ensures NoNewlines(Lines(s)) && LF !in Rest(s)
  {
    hide Lines, Rest, Joined;
    if s == [] {
      NoLines();
    } else {
      var p, b := s[..|s| - 1], s[|s| - 1];
      SplitJoins(p);
      assert s == p + [b];
      LinesSnoc(p, b);
      if b == LF { JoinedSnoc(Lines(p), Rest(p)); }
    }
  }

  lemma NoLines()
    ensures Lines([]) == [] && Rest([]) == [] && Joined([]) == []
  {
  }

  /** A stream split in two: the second part continues the pending line. */
  lemma {:induction false} LinesConcat(a: bytes, b: bytes)
    ensures Lines(a + b) == Lines(a) + Lines(Rest(a) + b)
    ensures Rest(a + b) == Rest(Rest(a) + b)
  {
    hide Lines, Rest, Joined;
    if b == [] {
      assert a + b == a && Rest(a) + b == Rest(a);
      SplitJoins(a);
      assert Lines(a) + [] == Lines(a);
      RestIsPlain(Rest(a));
    } else {
      var p, x := b[..|b| - 1], b[|b| - 1];
      LinesConcat(a, p);
      assert a + b == a + p + [x] && Rest(a) + b == Rest(a) + p + [x];
      LinesSnoc(a + p, x);
      LinesSnoc(Rest(a) + p, x);
      assert Lines(a) + Lines(Rest(a) + p) + [Rest(a + p)] == Lines(a) + (Lines(Rest(a) + p) + [Rest(a + p)]);
    }
  }

  lemma {:induction false} RestIsPlain(s: bytes)
    requires LF !in s
    ensures Lines(s) == [] && Rest(s) == s
  {
    if s != [] {
      RestIsPlain(s[..|s| - 1]);
      assert s == s[..|s| - 1] + [s[|s| - 1]];
    }
  }

  /** Newline-free lines and a newline-free remainder are recovered exactly, so
      the split of a stream is unique. */
  lemma {:induction false} LinesUnique(lines: seq<bytes>, rest: bytes)
    requires NoNewlines(lines) && LF !in rest
    ensures Lines(Joined(lines) + rest) == lines && Rest(Joined(lines) + rest) == rest
  {
    hide Lines, Rest;
    if lines == [] {
      assert Joined(lines) + rest == rest;
      RestIsPlain(rest);
    } else {
      var p, l := lines[..|lines| - 1], lines[|lines| - 1];
      assert LF !in l && NoNewlines(p);
      assert lines == p + [l];
      LinesUnique(p, l);
      JoinedSnoc(p, l);
      LinesSnoc(Joined(p) + l, LF);
      LineThenRest(Joined(lines), rest);
    }
  }

  lemma LineThenRest(s: bytes, rest: bytes)
    requires Rest(s) == []
    ensures Lines(s + rest) == Lines(s) + Lines(rest) && Rest(s + rest) == Rest(rest)
    ensures LF !in rest ==> Lines(s + rest) == Lines(s) && Rest(s + rest) == rest
  {
    hide Lines, Rest;
    LinesConcat(s, rest);
    assert [] + rest == rest;
    if LF !in rest { RestIsPlain(rest); }
  }

  /** The first newline ends the first line. */
  lemma FirstLine(s: bytes, k: nat)
    requires k < |s| && s[k] == LF && LF !in s[..k]
    ensures Lines(s) == [s[..k]] + Lines(s[k + 1..]) && Rest(s) == Rest(s[k + 1..])
  {
    hide Lines, Rest;
    CutAt(s, k);
    LinesCons(s[..k], s[k + 1..]);
  }

  lemma CutAt(s: bytes, k: nat)
    requires k < |s| && s[k] == LF
    ensures s == s[..k] + [LF] + s[k + 1..]
  {
  }

  lemma LinesCons(l: bytes, s: bytes)
    requires LF !in l
    ensures Lines(l + [LF] + s) == [l] + Lines(s) && Rest(l + [LF] + s) == Rest(s)
  {
    hide Lines, Rest;
    RestIsPlain(l);
    LinesSnoc(l, LF);
    LineThenRest(l + [LF], s);
    assert [] + [l] == [l];
  }

  /** memchr(s, '\n', n): the first newline, or n. */
  method FindNewline(s: bytes) returns (k: nat)
    ensures k <= |s| && LF !in s[..k] && (k < |s| ==> s[k] == LF)
  {
    k := 0;
    while k < |s| && s[k] != LF
      invariant k <= |s| && LF !in s[..k]
    {
      assert s[..k + 1] == s[..k] + [s[k]];
      k := k + 1;
    }
  }
}
