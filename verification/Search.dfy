/** Literal search: KMP over a text read in bounded chunks, against the plain
    definition of an occurrence. */
module Search {
  import opened Bytes
  import opened Utf8
  import opened TextStore

  const CHUNK := 32768

  /** SIZE_MAX stands for no match in the source. */
  datatype Found = NotFound | At(offset: nat)

  predicate Occurs(c: bytes, p: bytes, r: nat) {
    r + |p| <= |c| && c[r..r + |p|] == p
  }

  /** The first j bytes of p end at offset i of s. */
  predicate Ends(p: bytes, j: nat, s: bytes, i: nat) {
    j <= |p| && j <= i <= |s| && s[i - j..i] == p[..j]
  }

  /** j is the longest length below `bound` whose prefix of p ends at s[..i]. */
  predicate Longest(p: bytes, j: nat, s: bytes, i: nat, bound: nat) {
    && Ends(p, j, s, i) && j < bound
    && forall k: nat :: j < k < bound ==> !Ends(p, k, s, i)
  }

  /** pi[q] is the longest proper border of the first q + 1 bytes. */
  predicate Borders(p: bytes, pi: seq<nat>, n: nat) {
    n <= |p| && n <= |pi| && forall q :: 0 <= q < n ==> Longest(p, pi[q], p, q + 1, q + 1)
  }

  // ---- Facts about overlaps ---------------------------------------------------

  lemma EndsNothing(p: bytes, s: bytes, i: nat)
    requires i <= |s|
    ensures Ends(p, 0, s, i)
  {
    assert s[i..i] == p[..0];
  }

  lemma EndsExtend(p: bytes, j: nat, s: bytes, i: nat)
    requires j < |p| && i < |s|
    ensures Ends(p, j + 1, s, i + 1) <==> Ends(p, j, s, i) && p[j] == s[i]
  {
    if j <= i {
      assert s[i - j..i + 1] == s[i - j..i] + [s[i]];
      assert p[..j + 1] == p[..j] + [p[j]];
      assert (s[i - j..i] + [s[i]])[..j] == s[i - j..i] && (p[..j] + [p[j]])[..j] == p[..j];
      assert (s[i - j..i] + [s[i]])[j] == s[i] && (p[..j] + [p[j]])[j] == p[j];
    }
  }

  /** A shorter prefix ends where a longer one does exactly when it is a
      border of the longer one. */
  lemma EndsWithin(p: bytes, k: nat, j: nat, s: bytes, i: nat)
    requires k <= j && Ends(p, j, s, i)
    ensures Ends(p, k, s, i) <==> Ends(p, k, p, j)
  {
    SliceSlice(s, i - j, i, j - k, j);
    assert s[i - j..i][j - k..j] == p[..j][j - k..j];
    SliceSlice(p, 0, j, j - k, j);
    assert p[0..j] == p[..j];
  }

  lemma EndsIsOccurrence(p: bytes, s: bytes, i: nat)
    requires i <= |s|
    ensures Ends(p, |p|, s, i) <==> |p| <= i && Occurs(s, p, i - |p|)
  {
    assert p[..|p|] == p;
  }

  // ---- One step of the automaton ---------------------------------------------

  /** The failure loop and the comparison after it. */
  method Step(p: bytes, pi: array<nat>, start: nat, b: byte, ghost s: bytes, ghost i: nat, ghost bound: nat)
      returns (j: nat, ghost steps: nat)
    requires i < |s| && b == s[i] && 0 < bound <= |p|
    requires Borders(p, pi[..], bound - 1) && Longest(p, start, s, i, bound)
    ensures Longest(p, j, s, i + 1, bound + 1)
    ensures j + steps <= start + 1
  {
    hide Ends;
    j, steps := start, 0;
    while j > 0 && b != p[j]
      invariant j < bound && Ends(p, j, s, i) && j + steps <= start
      invariant forall k: nat :: j < k < bound && Ends(p, k, s, i) ==> p[k] != b
    {
      assert Longest(p, pi[..][j - 1], p, j, j);
      EndsWithin(p, pi[j - 1], j, s, i);
      forall k: nat | pi[j - 1] < k < j && Ends(p, k, s, i)
        ensures false
      {
        EndsWithin(p, k, j, s, i);
      }
      j := pi[j - 1];
      steps := steps + 1;
    }
    EndsExtend(p, j, s, i);
    if b == p[j] {
      j := j + 1;
    } else {
      EndsNothing(p, s, i + 1);
    }
    ghost var next := i + 1;
    forall k: nat | j < k <= bound
      ensures !Ends(p, k, s, next)
    {
      EndsExtend(p, k - 1, s, i);
    }
  }

  // ---- The failure table -------------------------------------------------------

  /** The failure table, and how many failure moves it takes to build. */
  method FailureTable(p: bytes) returns (pi: array<nat>, ghost steps: nat)
    requires |p| > 0
    ensures fresh(pi) && pi.Length == |p| && Borders(p, pi[..], |p|)
    ensures steps < |p|
  {
    pi := new nat[|p|](_ => 0);
    EndsNothing(p, p, 1);
    var i: nat, j: nat := 1, 0;
    steps := 0;
    while i < |p|
      invariant 1 <= i <= |p| && Borders(p, pi[..], i) && Longest(p, j, p, i, i)
      invariant j + steps < i
    {
      ghost var used;
      j, used := Step(p, pi, j, p[i], p, i, i);
      steps := steps + used;
      pi[i] := j;
      i := i + 1;
      assert forall q :: 0 <= q < i ==> Longest(p, pi[..][q], p, q + 1, q + 1);
    }
  }

  // ---- editor_find ---------------------------------------------------------------

  /** What a search reports: the first occurrence at or after start, or the
      last one that ends at or before start. */
  ghost predicate Reports(c: bytes, p: bytes, start: nat, backward: bool, r: Found) {
    if !backward then
      match r
      case NotFound => forall i: nat :: start <= i ==> !Occurs(c, p, i)
      case At(x) => start <= x && Occurs(c, p, x) && forall i: nat :: start <= i < x ==> !Occurs(c, p, i)
    else
      match r
      case NotFound => forall i: nat :: i + |p| <= start ==> !Occurs(c, p, i)
      case At(x) =>
        && x + |p| <= start && Occurs(c, p, x)
        && forall i: nat :: x < i && i + |p| <= start ==> !Occurs(c, p, i)
  }

  /** What has been reported after the window s = c[lo..limit] was read up to i. */
  ghost predicate SoFar(s: bytes, p: bytes, i: nat, r: Found) {
    match r
    case NotFound => forall k: nat :: k + |p| <= i ==> !Occurs(s, p, k)
    case At(x) => x + |p| <= i && Occurs(s, p, x) && forall k: nat :: x < k && k + |p| <= i ==> !Occurs(s, p, k)
  }

  lemma SoFarStep(s: bytes, p: bytes, i: nat, r: Found, j: nat)
    requires 0 < |p| && i < |s| && SoFar(s, p, i, r) && Longest(p, j, s, i + 1, |p| + 1)
    ensures SoFar(s, p, i + 1, if j == |p| then At(i + 1 - |p|) else r)
    ensures j == |p| ==> i + 1 >= |p|
  {
    EndsIsOccurrence(p, s, i + 1);
    forall k: nat | k + |p| == i + 1
      ensures Occurs(s, p, k) <==> j == |p|
    {
    }
  }

  /** After a match the automaton goes on from the longest border. */
  lemma AfterMatch(p: bytes, pi: seq<nat>, s: bytes, i: nat)
    requires 0 < |p| && Borders(p, pi, |p|) && Ends(p, |p|, s, i)
    ensures Longest(p, pi[|p| - 1], s, i, |p|)
  {
    hide Ends;
    var m := |p|;
    assert Longest(p, pi[m - 1], p, m, m);
    EndsWithin(p, pi[m - 1], m, s, i);
    forall k: nat | pi[m - 1] < k < m
      ensures !Ends(p, k, s, i)
    {
      EndsWithin(p, k, m, s, i);
    }
  }

  /** The bytes a search reads. */
  function Window(size: nat, from: nat, backward: bool): nat {
    if backward then Min(from, size) else size - Min(from, size)
  }

  /** editor_find. `steps` counts failure-link moves: fewer than the needle has
      bytes to build the table, at most one for each byte read. */
  method Find(t: Text, needle: bytes, from: nat, backward: bool) returns (r: Found, ghost steps: nat)
    requires t.Valid()
    ensures needle == [] ==> r == At(Min(from, |t.Contents()|))
    ensures needle != [] ==> Reports(t.Contents(), needle, Min(from, |t.Contents()|), backward, r)
    ensures steps <= |needle| + Window(|t.Contents()|, from, backward)
  {
    hide Text.Valid, Text.Contents, Borders, Longest, SoFar, Occurs;
    var size := t.Length();
    var m, start := |needle|, Min(from, size);
    steps := 0;
    if m == 0 { return At(start), 0; }
    ghost var c := t.Contents();
    var pi, built := FailureTable(needle);
    steps := built;
    var lo, limit := if backward then 0 else start, if backward then start else size;
    ghost var s := c[lo..limit];
    var off: nat, j: nat := lo, 0;
    r := NotFound;
    StartState(needle, s);
    while off < limit
      invariant lo <= off <= limit
      invariant pi.Length == m && Borders(needle, pi[..], m)
      invariant Longest(needle, j, s, off - lo, m)
      invariant SoFar(s, needle, off - lo, r) && (!backward ==> r.NotFound?)
      invariant j + steps <= built + off - lo
    {
      var n := Min(limit - off, CHUNK);
      var chunk := t.Slice(off, n);
      SliceSlice(c, lo, limit, off - lo, off - lo + n);
      var found, used, j', r' := ScanChunk(chunk, needle, pi, j, r, off - lo, backward, s);
      steps := steps + used;
      if found {
        ReportForward(c, needle, lo, r');
        return At(lo + r'.offset), steps;
      }
      j, r, off := j', r', off + n;
    }
    ReportEnd(c, needle, start, backward, r);
    r := if r.At? then At(lo + r.offset) else r;
  }

  /** One chunk of the window s: the automaton state carries over its ends. */
  method ScanChunk(chunk: bytes, p: bytes, pi: array<nat>, start: nat, last: Found, at: nat, backward: bool,
      ghost s: bytes)
      returns (found: bool, ghost steps: nat, j: nat, r: Found)
    requires 0 < |p| && pi.Length == |p| && Borders(p, pi[..], |p|)
    requires at + |chunk| <= |s| && chunk == s[at..at + |chunk|]
    requires Longest(p, start, s, at, |p|) && SoFar(s, p, at, last) && (!backward ==> last.NotFound?)
    ensures found ==> !backward && r.At? && Occurs(s, p, r.offset) && forall k: nat :: k < r.offset ==> !Occurs(s, p, k)
    ensures !found ==> Longest(p, j, s, at + |chunk|, |p|) && SoFar(s, p, at + |chunk|, r)
    ensures !found && !backward ==> r.NotFound?
    ensures !found ==> j + steps <= start + |chunk|
    ensures steps <= start + |chunk|
  {
    hide Borders, Longest, Ends, Occurs;
    found, steps, j, r := false, 0, start, last;
    var k: nat := 0;
    while k < |chunk|
      invariant k <= |chunk| && Longest(p, j, s, at + k, |p|) && SoFar(s, p, at + k, r) && (!backward ==> r.NotFound?)
      invariant j + steps <= start + k
    {
      assert chunk[k] == s[at + k];
      BordersShort(p, pi[..]);
      ghost var used;
      j, used := Step(p, pi, j, chunk[k], s, at + k, |p|);
      steps := steps + used;
      LongestBound(p, j, s, at + k + 1);
      SoFarStep(s, p, at + k, r, j);
      if j == |p| {
        r := At(at + k + 1 - |p|);
        if !backward { return true, steps, j, r; }
        AfterMatch(p, pi[..], s, at + k + 1);
        BorderBelow(p, pi[..]);
        j := pi[|p| - 1];
        steps := steps + 1;
      }
      k := k + 1;
    }
  }

  lemma BordersShort(p: bytes, pi: seq<nat>)
    requires 0 < |p| && Borders(p, pi, |p|)
    ensures Borders(p, pi, |p| - 1)
  {
  }

  lemma BorderBelow(p: bytes, pi: seq<nat>)
    requires 0 < |p| && Borders(p, pi, |p|)
    ensures pi[|p| - 1] < |p|
  {
  }

  lemma LongestBound(p: bytes, j: nat, s: bytes, i: nat)
    requires Longest(p, j, s, i, |p| + 1)
    ensures j <= |p| && (j < |p| ==> Longest(p, j, s, i, |p|)) && Ends(p, j, s, i)
  {
  }

  lemma StartState(p: bytes, s: bytes)
    requires 0 < |p|
    ensures Longest(p, 0, s, 0, |p|) && SoFar(s, p, 0, NotFound)
  {
    EndsNothing(p, s, 0);
  }

  /** Occurrences in a window are occurrences in the text. */
  lemma WindowOccurs(c: bytes, p: bytes, lo: nat, limit: nat, k: nat)
    requires lo <= limit <= |c|
    ensures Occurs(c[lo..limit], p, k) <==> lo + k + |p| <= limit && Occurs(c, p, lo + k)
  {
    if lo + k + |p| <= limit {
      SliceSlice(c, lo, limit, k, k + |p|);
    }
  }

  lemma ReportForward(c: bytes, p: bytes, start: nat, r: Found)
    requires start <= |c| && r.At? && Occurs(c[start..|c|], p, r.offset)
    requires forall k: nat :: k < r.offset ==> !Occurs(c[start..|c|], p, k)
    ensures Reports(c, p, start, false, At(start + r.offset))
  {
    WindowOccurs(c, p, start, |c|, r.offset);
    forall i: nat | start <= i < start + r.offset
      ensures !Occurs(c, p, i)
    {
      WindowOccurs(c, p, start, |c|, i - start);
    }
  }

  lemma ReportEnd(c: bytes, p: bytes, start: nat, backward: bool, r: Found)
    requires start <= |c| && 0 < |p|
    requires var lo, limit := if backward then 0 else start, if backward then start else |c|;
             SoFar(c[lo..limit], p, limit - lo, r) && (!backward ==> r.NotFound?)
    ensures Reports(c, p, start, backward, r)
  {
    var lo, limit := if backward then 0 else start, if backward then start else |c|;
    forall i: nat | lo <= i
      ensures Occurs(c[lo..limit], p, i - lo) <==> i + |p| <= limit && Occurs(c, p, i)
    {
      WindowOccurs(c, p, lo, limit, i - lo);
    }
  }

  /** A reported match of valid UTF-8 in valid UTF-8 starts and ends on
      code-point boundaries. */
  lemma ReportOnBoundaries(c: bytes, p: bytes, start: nat, backward: bool, r: Found)
    requires Valid(c) && Valid(p) && p != [] && r.At? && Reports(c, p, start, backward, r)
    ensures IsBoundary(c, r.offset) && IsBoundary(c, r.offset + |p|)
  {
    MatchOnBoundaries(c, p, r.offset);
  }
}
