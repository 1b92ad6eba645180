/** Display columns of a line, and the checkpoints that cache them. */
module Columns {
  import opened Bytes
  import opened Utf8
  import opened TextStore
  import opened Modulo

  const CHUNK := 4096

  /** Width of a code point given what wcwidth says about it: negative means
      not printable, shown as ^X or as one cell. */
  function GlyphWidth(w: int, c: nat): nat {
    if w >= 0 then w else if c < 32 || c == 127 then 2 else 1
  }

  /** Column after a code point shown at column col. */
  function Advance(wc: nat -> int, tab: nat, c: nat, col: nat): (r: nat)
    requires tab > 0
    ensures col <= r
  {
    if c == TAB then col + (tab - col % tab) else col + GlyphWidth(wc(c), c)
  }

  /** Column after a stretch of text that starts at column col. */
  function ColumnsOf(wc: nat -> int, tab: nat, s: bytes, col: nat): nat
    requires tab > 0
  {
    if s == [] then col
    else
      var d := Decode(s);
      ColumnsOf(wc, tab, s[d.used..], Advance(wc, tab, d.code, col))
  }

  lemma {:induction false} ColumnsConcat(wc: nat -> int, tab: nat, a: bytes, b: bytes, col: nat)
    requires tab > 0 && Valid(a)
    ensures ColumnsOf(wc, tab, a + b, col) == ColumnsOf(wc, tab, b, ColumnsOf(wc, tab, a, col))
    decreases |a|
  {
    if a == [] {
      assert a + b == b;
    } else {
      HeadLocal(a, a + b);
      var d := Decode(a);
      assert (a + b)[d.used..] == a[d.used..] + b;
      ColumnsConcat(wc, tab, a[d.used..], b, Advance(wc, tab, d.code, col));
    }
  }

  lemma {:induction false} ColumnsMono(wc: nat -> int, tab: nat, s: bytes, col: nat)
    requires tab > 0
    ensures col <= ColumnsOf(wc, tab, s, col)
  {
    if s != [] {
      var d := Decode(s);
      ColumnsMono(wc, tab, s[d.used..], Advance(wc, tab, d.code, col));
    }
  }

  /** Columns of c[a..z] continue those of c[a..m]. */
  lemma ColumnsSplit(wc: nat -> int, tab: nat, c: bytes, a: nat, m: nat, z: nat, col: nat)
    requires tab > 0 && Valid(c) && a <= m <= z <= |c| && IsBoundary(c, a) && IsBoundary(c, m)
    ensures ColumnsOf(wc, tab, c[a..z], col) == ColumnsOf(wc, tab, c[m..z], ColumnsOf(wc, tab, c[a..m], col))
  {
    ValidSlice(c, a, m);
    assert c[a..z] == c[a..m] + c[m..z];
    ColumnsConcat(wc, tab, c[a..m], c[m..z], col);
  }

  /** One more code point. */
  lemma ColumnsStep(wc: nat -> int, tab: nat, c: bytes, a: nat, p: nat, col: nat)
    requires tab > 0 && Valid(c) && a <= p < |c| && IsBoundary(c, a) && IsBoundary(c, p)
    ensures var d := Decode(c[p..]);
            && p + d.used <= |c| && IsBoundary(c, p + d.used)
            && ColumnsOf(wc, tab, c[a..p + d.used], col) == Advance(wc, tab, d.code, ColumnsOf(wc, tab, c[a..p], col))
  {
    hide Valid, Decode, ColumnsOf;
    NextBoundary(c, p);
    var d := Decode(c[p..]);
    DecodeInChunk(c, p, p + d.used);
    ColumnsSplit(wc, tab, c, a, p, p + d.used, col);
    ColumnsOne(wc, tab, c[p..p + d.used], ColumnsOf(wc, tab, c[a..p], col));
  }

  lemma ColumnsOne(wc: nat -> int, tab: nat, s: bytes, col: nat)
    requires tab > 0 && s != [] && |s| == Decode(s).used
    ensures ColumnsOf(wc, tab, s, col) == Advance(wc, tab, Decode(s).code, col)
  {
    hide Decode, Advance;
    assert s[|s|..] == [];
  }

  // ---- scan_columns ------------------------------------------------------------

  /** The scan stopped at r: either at the end, or the next code point would
      pass the target. */
  predicate StopsAt(wc: nat -> int, tab: nat, c: bytes, r: nat, end: nat, col: nat, target: nat)
    requires tab > 0
  {
    r <= end <= |c| && (r == end || Advance(wc, tab, Decode(c[r..]).code, col) > target)
  }

  /** scan_columns: at most 4096 bytes are copied at a time. */
  method ScanColumns(t: Text, wc: nat -> int, tab: nat, from: nat, end: nat, column: nat, target: nat, limit: bool)
      returns (at: nat, col: nat)
    requires t.Valid() && tab > 0
    requires from <= end && IsBoundary(t.Contents(), from) && IsBoundary(t.Contents(), end)
    ensures from <= at <= end && IsBoundary(t.Contents(), at)
    ensures col == ColumnsOf(wc, tab, t.Contents()[from..at], column)
    ensures !limit ==> at == end
    ensures limit ==> StopsAt(wc, tab, t.Contents(), at, end, col, target)
    ensures limit && column <= target ==> col <= target
  {
    hide Text.Valid, Text.Contents, Utf8.Valid, ColumnsOf, Decode, StopsAt, Advance, BackedOff;
    ghost var c := t.Contents();
    t.ValidText();
    at, col := from, column;
    ColumnsEmpty(wc, tab, c, from, column);
    while at < end
      invariant from <= at <= end && IsBoundary(c, at)
      invariant col == ColumnsOf(wc, tab, c[from..at], column)
      invariant limit && column <= target ==> col <= target
    {
      ChunkProgress(c, at, end);
      var n := ChunkLength(t, at, end);
      var chunk := t.Slice(at, n);
      var i, next := ScanChunk(chunk, wc, tab, c, from, at, column, col, target, limit);
      at, col := at + i, next;
      if i < n {
        StopsEarly(wc, tab, c, at, end, col, target);
        return;
      }
    }
    StopsAtEnd(wc, tab, c, end, col, target);
  }

  lemma ColumnsEmpty(wc: nat -> int, tab: nat, c: bytes, at: nat, col: nat)
    requires tab > 0 && at <= |c|
    ensures ColumnsOf(wc, tab, c[at..at], col) == col
  {
  }

  lemma StopsEarly(wc: nat -> int, tab: nat, c: bytes, r: nat, end: nat, col: nat, target: nat)
    requires tab > 0 && r <= end <= |c| && Advance(wc, tab, Decode(c[r..]).code, col) > target
    ensures StopsAt(wc, tab, c, r, end, col, target)
  {
  }

  lemma StopsAtEnd(wc: nat -> int, tab: nat, c: bytes, end: nat, col: nat, target: nat)
    requires tab > 0 && end <= |c|
    ensures StopsAt(wc, tab, c, end, end, col, target)
  {
  }

  /** The inner loop of scan_columns, over one copied chunk of the text c. */
  method ScanChunk(chunk: bytes, wc: nat -> int, tab: nat, ghost c: bytes, ghost from: nat, ghost at: nat,
                   ghost column: nat, start: nat, target: nat, limit: bool)
      returns (i: nat, col: nat)
    requires tab > 0 && Valid(c) && from <= at && at + |chunk| <= |c| && chunk == c[at..at + |chunk|]
    requires IsBoundary(c, from) && IsBoundary(c, at) && IsBoundary(c, at + |chunk|)
    requires start == ColumnsOf(wc, tab, c[from..at], column)
    ensures i <= |chunk| && IsBoundary(c, at + i)
    ensures col == ColumnsOf(wc, tab, c[from..at + i], column)
    ensures i < |chunk| ==> limit && Advance(wc, tab, Decode(c[at + i..]).code, col) > target
    ensures limit && start <= target ==> col <= target
  {
    hide Utf8.Valid, ColumnsOf, Decode, Advance;
    i, col := 0, start;
    while i < |chunk|
      invariant i <= |chunk| && IsBoundary(c, at + i)
      invariant col == ColumnsOf(wc, tab, c[from..at + i], column)
      invariant limit && start <= target ==> col <= target
    {
      DecodeInChunk(c, at + i, at + |chunk|);
      SliceDrop(c, at, at + |chunk|, i);
      ColumnsStep(wc, tab, c, from, at + i, column);
      var code, k := Utf8Decode(chunk[i..]);
      var next := Advance(wc, tab, code, col);
      if limit && next > target { return; }
      col := next;
      i := i + k;
    }
  }

  // ---- When scan_columns ends ----------------------------------------------------

  /** The chunk length once it is backed off to a boundary; 0 when there is none. */
  function BackedOff(c: bytes, at: nat, n: nat): (r: nat)
    ensures r <= n && (r > 0 ==> IsBoundary(c, at + r))
    ensures forall j: nat :: at + r < j <= at + n ==> !IsBoundary(c, j)
  {
    if n == 0 || IsBoundary(c, at + n) then n else BackedOff(c, at, n - 1)
  }

  /** The inner loop that backs off, for any end of the scan. */
  method ChunkLength(t: Text, at: nat, end: nat) returns (n: nat)
    requires t.Valid() && at <= end
    ensures n == BackedOff(t.Contents(), at, Min(end - at, CHUNK))
  {
    hide Text.Valid, Text.Contents;
    n := end - at;
    if n > CHUNK { n := CHUNK; }
    while n > 0
      invariant BackedOff(t.Contents(), at, n) == BackedOff(t.Contents(), at, Min(end - at, CHUNK))
    {
      var ok := t.Boundary(at + n);
      if ok { return; }
      n := n - 1;
    }
  }

  /** Towards a boundary every chunk is non-empty: one of its last four offsets
      is a boundary. */
  lemma ChunkProgress(c: bytes, at: nat, end: nat)
    requires Valid(c) && at < end && IsBoundary(c, at) && IsBoundary(c, end)
    ensures var n := BackedOff(c, at, Min(end - at, CHUNK)); 0 < n && at + n <= end
  {
    hide Utf8.Valid;
    var n := Min(end - at, CHUNK);
    if n == CHUNK {
      BoundaryNear(c, at + n);
      var j :| at + n - 3 <= j <= at + n && IsBoundary(c, j);
    }
  }

  /** Where the outer loop stands after some turns that are not cut short. */
  function After(c: bytes, at: nat, end: nat, turns: nat): (r: nat)
    requires at <= end
    ensures at <= r <= end
    decreases turns
  {
    if turns == 0 then at else After(c, at + BackedOff(c, at, Min(end - at, CHUNK)), end, turns - 1)
  }

  lemma {:induction false} StaysAtBoundary(c: bytes, at: nat, end: nat, turns: nat)
    requires at <= end && IsBoundary(c, at)
    ensures IsBoundary(c, After(c, at, end, turns))
    decreases turns
  {
    if turns > 0 {
      StaysAtBoundary(c, at + BackedOff(c, at, Min(end - at, CHUNK)), end, turns - 1);
    }
  }

  lemma {:induction false} Arrives(c: bytes, at: nat, end: nat, turns: nat)
    requires Valid(c) && at <= end && IsBoundary(c, at) && IsBoundary(c, end) && turns >= end - at
    ensures After(c, at, end, turns) == end
    decreases turns
  {
    hide Utf8.Valid, BackedOff;
    if turns > 0 {
      if at < end { ChunkProgress(c, at, end); }
      var n := BackedOff(c, at, Min(end - at, CHUNK));
      Arrives(c, at + n, end, turns - 1);
    }
  }

  lemma {:induction false} Stuck(c: bytes, at: nat, end: nat, turns: nat)
    requires at <= end && BackedOff(c, at, Min(end - at, CHUNK)) == 0
    ensures After(c, at, end, turns) == at
    decreases turns
  {
    if turns > 0 { Stuck(c, at, end, turns - 1); }
  }

  /** Sooner or later the loop no longer moves. */
  lemma {:induction false} Settles(c: bytes, at: nat, end: nat, turns: nat, more: nat)
    requires at <= end && turns >= end - at && more >= turns
    ensures After(c, at, end, more) == After(c, at, end, turns)
    decreases turns
  {
    hide BackedOff;
    var n := BackedOff(c, at, Min(end - at, CHUNK));
    if n == 0 {
      Stuck(c, at, end, turns);
      Stuck(c, at, end, more);
    } else {
      Settles(c, at + n, end, turns - 1, more - 1);
    }
  }

  /** The chunked scan from a boundary reaches its end exactly when the end is a
      boundary; otherwise it stops moving before it, and the loop never ends. */
  lemma ScanEnds(c: bytes, at: nat, end: nat)
    requires Valid(c) && at <= end <= |c| && IsBoundary(c, at)
    ensures (exists turns: nat :: After(c, at, end, turns) == end) <==> IsBoundary(c, end)
    ensures forall more: nat :: more >= end - at ==> After(c, at, end, more) == After(c, at, end, end - at)
  {
    hide Utf8.Valid, BackedOff, After;
    forall turns: nat
      ensures IsBoundary(c, After(c, at, end, turns))
    {
      StaysAtBoundary(c, at, end, turns);
    }
    if IsBoundary(c, end) { Arrives(c, at, end, end - at); }
    forall more: nat | more >= end - at
      ensures After(c, at, end, more) == After(c, at, end, end - at)
    {
      Settles(c, at, end, end - at, more);
    }
  }

  /** Offset 1 of a, U+00E9 is a boundary until the first letter is deleted; a
      pane that still remembers it makes the scan turn for ever at offset 0. */
  lemma StalePoint()
    ensures var was: bytes, c: bytes := [97, 0xC3, 0xA9], [0xC3, 0xA9];
            && Valid(c) && IsBoundary(was, 1) && Splice(was, 0, 1, []) == c && !IsBoundary(c, 1)
            && forall turns: nat :: After(c, 0, 1, turns) == 0
  {
    var was: bytes, c: bytes := [97, 0xC3, 0xA9], [0xC3, 0xA9];
    assert c == Encode(0xE9) + [];
    DecodeEncode(0xE9, []);
    assert c[2..] == [];
    forall turns: nat
      ensures After(c, 0, 1, turns) == 0
    {
      Stuck(c, 0, 1, turns);
    }
  }

  // ---- Checkpoints -----------------------------------------------------------------

  datatype ColumnCache = ColumnCache(point: nat, column: nat, lineStart: nat, valid: bool)

  /** A valid checkpoint records the column of its point on its line. */
  predicate CacheOk(wc: nat -> int, tab: nat, c: bytes, k: ColumnCache) {
    k.valid && tab > 0 ==>
      && k.lineStart <= k.point <= |c| && IsBoundary(c, k.lineStart) && IsBoundary(c, k.point)
      && LF !in c[k.lineStart..k.point]
      && k.column == ColumnsOf(wc, tab, c[k.lineStart..k.point], 0)
  }

  /** What editor_lex_invalidate does to a checkpoint. */
  function Checked(k: ColumnCache, at: nat): ColumnCache {
    if at < k.point then k.(valid := false) else k
  }

  lemma CheckedSound(wc: nat -> int, tab: nat, c: bytes, d: bytes, at: nat, k: ColumnCache)
    requires CacheOk(wc, tab, c, k) && at <= |c| && c[..at] == d[..Min(at, |d|)] && IsBoundary(d, at)
    ensures CacheOk(wc, tab, d, Checked(k, at))
  {
    if k.valid && tab > 0 && at >= k.point {
      assert forall i :: 0 <= i < at ==> c[i] == c[..at][i] && d[i] == d[..at][i];
      assert c[k.lineStart..k.point] == d[k.lineStart..k.point];
    }
  }

  /** The column at an offset, scanned from the start of its line. */
  function ColumnAt(wc: nat -> int, tab: nat, c: bytes, p: nat): nat
    requires tab > 0 && p <= |c|
  {
    NoNewlineBefore(c, p);
    ColumnsOf(wc, tab, c[LineStart(c, LineOf(c, p))..p], 0)
  }

  /** A line starts on a boundary: a newline is a code point of its own. */
  lemma LineStartBoundary(c: bytes, line: nat)
    requires Valid(c)
    ensures IsBoundary(c, LineStart(c, line))
  {
    var r := LineStart(c, line);
    if r == 0 {
      if c != [] { ValidHead(c); }
    } else if r < |c| {
      NextBoundary(c, r - 1);
      assert c[r - 1..][0] == LF;
    }
  }

  lemma LineEndBoundary(c: bytes, line: nat)
    requires Valid(c)
    ensures IsBoundary(c, LineEnd(c, line)) && LineStart(c, line) <= LineEnd(c, line)
  {
    LineStartBoundary(c, line + 1);
    LineStartMono(c, line);
  }

  /** At the start of a line the column is 0. */
  lemma ColumnAtStart(wc: nat -> int, tab: nat, c: bytes, p: nat)
    requires tab > 0 && p <= |c| && (p == 0 || c[p - 1] == 10)
    ensures ColumnAt(wc, tab, c, p) == 0
  {
    NoNewlineBefore(c, p);
    var a := LineStart(c, LineOf(c, p));
    if a < p { EndsInNewline(c, a, p); }
  }

  lemma EndsInNewline(c: bytes, a: nat, p: nat)
    requires a < p <= |c| && c[p - 1] == LF
    ensures LF in c[a..p]
  {
    assert c[a..p][p - 1 - a] == LF;
  }

  lemma SameRow(c: bytes, p: nat, q: nat)
    requires p <= q <= |c| && forall i :: p <= i < q ==> c[i] != LF
    ensures LineOf(c, q) == LineOf(c, p)
  {
    CountMono(Newlines, c, p, q);
    NoHitsCount(Newlines, c[p..q]);
  }

  /** What each code point does to the column: a tab goes on to the next tab
      stop, any other takes the cells wcwidth gives it, and what wcwidth cannot
      place takes two when it is a control character and one otherwise. */
  lemma ColumnLaw(wc: nat -> int, tab: nat, c: bytes, p: nat)
    requires tab > 0 && Valid(c) && p < |c| && IsBoundary(c, p) && c[p] != 10
    ensures var d := Decode(c[p..]);
            && p + d.used <= |c|
            && var col, next := ColumnAt(wc, tab, c, p), ColumnAt(wc, tab, c, p + d.used);
               if d.code == 9 then next % tab == 0 && col < next <= col + tab
               else if wc(d.code) >= 0 then next == col + wc(d.code)
               else if d.code < 32 || d.code == 127 then next == col + 2
               else next == col + 1
  {
    hide Valid, Decode, ColumnAt;
    ColumnAtNext(wc, tab, c, p);
    NextStop(ColumnAt(wc, tab, c, p), tab);
  }

  lemma ColumnAtNext(wc: nat -> int, tab: nat, c: bytes, p: nat)
    requires tab > 0 && Valid(c) && p < |c| && IsBoundary(c, p) && c[p] != LF
    ensures var d := Decode(c[p..]);
            && p + d.used <= |c|
            && ColumnAt(wc, tab, c, p + d.used) == Advance(wc, tab, d.code, ColumnAt(wc, tab, c, p))
  {
    hide Valid, Decode, ColumnsOf, Advance, LineOf, LineStart;
    NextBoundary(c, p);
    CodePointOnRow(c, p);
    QueryOnLine(c, p);
    ColumnsStep(wc, tab, c, LineStart(c, LineOf(c, p)), p, 0);
  }

  lemma CodePointOnRow(c: bytes, p: nat)
    requires Valid(c) && p < |c| && IsBoundary(c, p) && c[p] != LF
    ensures var q := p + Decode(c[p..]).used; q <= |c| && LineOf(c, q) == LineOf(c, p)
  {
    hide Valid, Decode;
    NextBoundary(c, p);
    HeadShape(c[p..]);
    var q := p + Decode(c[p..]).used;
    forall i | p <= i < q
      ensures c[i] != LF
    {
      if i > p { assert IsCont(c[p..][i - p]); }
    }
    SameRow(c, p, q);
  }

  lemma NextStop(col: nat, tab: nat)
    requires tab > 0
    ensures (col + (tab - col % tab)) % tab == 0 && col < col + (tab - col % tab) <= col + tab
  {
    var q := col / tab;
    assert col == tab * q + col % tab;
    assert (q + 1) * tab == tab * q + tab;
    ModuloUnique(col + (tab - col % tab), tab, q + 1, 0);
  }

  /** The seek result is the last boundary of the line within the target. */
  predicate LastWithin(wc: nat -> int, tab: nat, c: bytes, start: nat, end: nat, r: nat, target: nat)
    requires tab > 0
  {
    && start <= r <= end <= |c| && IsBoundary(c, r) && ColumnsOf(wc, tab, c[start..r], 0) <= target
    && forall q :: r < q <= end && IsBoundary(c, q) ==> ColumnsOf(wc, tab, c[start..q], 0) > target
  }

  lemma StopIsLast(wc: nat -> int, tab: nat, c: bytes, start: nat, end: nat, r: nat, target: nat)
    requires tab > 0 && Valid(c) && start <= r && IsBoundary(c, start) && IsBoundary(c, r)
    requires var col := ColumnsOf(wc, tab, c[start..r], 0); col <= target && StopsAt(wc, tab, c, r, end, col, target)
    ensures LastWithin(wc, tab, c, start, end, r, target)
  {
    forall q | r < q <= end && IsBoundary(c, q)
      ensures ColumnsOf(wc, tab, c[start..q], 0) > target
    {
      PastStop(wc, tab, c, start, r, q, target);
    }
  }

  lemma PastStop(wc: nat -> int, tab: nat, c: bytes, start: nat, r: nat, q: nat, target: nat)
    requires tab > 0 && Valid(c) && start <= r < q <= |c|
    requires IsBoundary(c, start) && IsBoundary(c, r) && IsBoundary(c, q)
    requires Advance(wc, tab, Decode(c[r..]).code, ColumnsOf(wc, tab, c[start..r], 0)) > target
    ensures ColumnsOf(wc, tab, c[start..q], 0) > target
  {
    hide Valid, Decode, ColumnsOf, Advance;
    ColumnsStep(wc, tab, c, start, r, 0);
    NextBoundary(c, r);
    var m := r + Decode(c[r..]).used;
    assert m <= q;
    ColumnsSplit(wc, tab, c, start, m, q, 0);
    ColumnsMono(wc, tab, c[m..q], ColumnsOf(wc, tab, c[start..m], 0));
  }

  /** A newline-free stretch from a line's start stays on the line. */
  lemma StaysOnLine(c: bytes, line: nat, p: nat)
    requires LineStart(c, line) <= p <= |c| && LF !in c[LineStart(c, line)..p]
    ensures p <= LineEnd(c, line)
  {
    LineStartMono(c, line);
    var a, z := LineStart(c, line), LineStart(c, line + 1);
    if line < Count(Newlines, c) {
      LineRoundTrip(c, line);
      LineRoundTrip(c, line + 1);
    }
    assert forall i :: a <= i < p ==> c[a..p][i - a] == c[i];
  }

  /** The offset of a query is on its own line. */
  lemma QueryOnLine(c: bytes, p: nat)
    requires Valid(c) && IsBoundary(c, p)
    ensures var start := LineStart(c, LineOf(c, p)); start <= p && IsBoundary(c, start) && LF !in c[start..p]
  {
    NoNewlineBefore(c, p);
    LineStartBoundary(c, LineOf(c, p));
  }

  /** Resuming from a checkpoint on the same line gives the same column. */
  lemma ResumeColumn(wc: nat -> int, tab: nat, c: bytes, k: ColumnCache, start: nat, z: nat)
    requires tab > 0 && Valid(c) && k.valid && CacheOk(wc, tab, c, k) && k.lineStart == start && k.point <= z <= |c|
    ensures IsBoundary(c, k.point)
    ensures ColumnsOf(wc, tab, c[start..z], 0) == ColumnsOf(wc, tab, c[k.point..z], k.column)
  {
    ColumnsSplit(wc, tab, c, start, k.point, z, 0);
  }

  lemma NewCheckpoint(wc: nat -> int, tab: nat, c: bytes, start: nat, p: nat)
    requires tab > 0 && start <= p <= |c| && IsBoundary(c, start) && IsBoundary(c, p) && LF !in c[start..p]
    ensures CacheOk(wc, tab, c, ColumnCache(p, ColumnsOf(wc, tab, c[start..p], 0), start, true))
  {
  }

  lemma SeekOnLine(c: bytes, line: nat, r: nat)
    requires LineStart(c, line) <= r <= LineEnd(c, line)
    ensures LF !in c[LineStart(c, line)..r]
  {
    LineHasNoNewline(c, line);
    var a, z := LineStart(c, line), LineEnd(c, line);
    assert forall i :: a <= i < z ==> Line(c, line)[i - a] == c[i];
  }
}
