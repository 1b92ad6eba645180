/** The lexical and column caches over whole runs of edits and queries. */
module CacheRuns {
  import opened Bytes
  import opened Utf8
  import opened History
  import opened Lexer
  import opened Columns
  import opened Document

  /** What can happen to the caches: an edit (by replacing, undoing or
      redoing), a whole new text, the options, and the queries that fill them. */
  datatype Step =
    | Splices(at: nat, n: nat, s: bytes)
    | Reloads(s: bytes)
    | TabTo(n: nat)
    | SyntaxTo(syn: Syntax)
    | AsksState(row: nat)
    | AsksColumn(p: nat)
    | Seeks(line: nat, target: nat, r: nat)

  /** state_at: lines are scanned from the last cached state on. */
  function Filled(syn: Syntax, c: bytes, states: seq<Lex>, valid: nat, row: nat): (r: seq<Lex>)
    requires valid <= |states|
    ensures |r| > row
    decreases row + 1 - valid
  {
    if valid == 0 then Filled(syn, c, [Normal], 1, row)
    else if valid > row then states
    else Filled(syn, c, states[..valid] + [ScanLine(syn, Line(c, valid - 1), states[valid - 1])], valid + 1, row)
  }

  lemma FilledStep(syn: Syntax, c: bytes, states: seq<Lex>, valid: nat, row: nat)
    requires valid <= |states|
    ensures valid == 0 ==> Filled(syn, c, states, 0, row) == Filled(syn, c, [Normal], 1, row)
    ensures valid > row ==> Filled(syn, c, states, valid, row) == states
    ensures 0 < valid <= row ==>
            var next := ScanLine(syn, Line(c, valid - 1), states[valid - 1]);
            Filled(syn, c, states, valid, row) == Filled(syn, c, states[..valid] + [next], valid + 1, row)
  {
  }

  /** Where editor_column starts to scan for an offset, and the column there. */
  function ColumnFrom(k: ColumnCache, start: nat, p: nat): (nat, nat) {
    if k.valid && k.lineStart == start && k.point <= p then (k.point, k.column) else (start, 0)
  }

  function SeekStart(k: ColumnCache, start: nat, target: nat): (nat, nat) {
    if k.valid && k.lineStart == start && k.column <= target then (k.point, k.column) else (start, 0)
  }

  /** The column counted from a checkpoint. */
  function Resumed(wc: nat -> int, tab: nat, c: bytes, from: (nat, nat), p: nat): nat
    requires tab > 0
  {
    if from.0 <= p <= |c| then ColumnsOf(wc, tab, c[from.0..p], from.1) else 0
  }

  /** A checkpoint is kept only far into a long line. */
  function Noted(k: ColumnCache, start: nat, p: nat, col: nat): ColumnCache {
    if p > start + 4096 then ColumnCache(p, col, start, true) else k
  }

  /** The state cache was left alone, or filled up to a row and perhaps the next
      one. */
  predicate FilledTo(k: Caches, v: Caches, c: bytes, row: nat)
    requires k.valid <= |k.states|
  {
    v == k || v == Fills(k, c, row) || v == Fills(Fills(k, c, row), c, row + 1)
  }

  lemma FillsOne(k: Caches, c: bytes)
    requires LexCacheOk(k.syntax, c, k.states, k.valid) && k.valid > 0
    ensures var more := k.states[..k.valid] + [StateAtRow(k.syntax, c, k.valid)];
            Fills(k, c, k.valid) == k.(states := more, valid := k.valid + 1)
  {
    hide Line, ScanLine;
    var v := k.valid;
    var next := ScanLine(k.syntax, Line(c, v - 1), k.states[v - 1]);
    assert next == StateAtRow(k.syntax, c, v);
    assert Filled(k.syntax, c, k.states[..v] + [next], v + 1, v) == k.states[..v] + [next];
  }

  /** What asking for the state at a row leaves in the cache. */
  function Fills(k: Caches, c: bytes, row: nat): (v: Caches)
    requires k.valid <= |k.states|
    ensures v.valid <= |v.states|
  {
    if k.valid > row then k else k.(states := Filled(k.syntax, c, k.states, k.valid, row), valid := row + 1)
  }

  function Next(wc: nat -> int, k: Caches, c: bytes, step: Step): (r: (Caches, bytes))
    requires k.tab > 0 && k.valid <= |k.states|
  {
    match step
    case Splices(at, n, s) =>
      if Accepts(c, at, n, s) && !(n == 0 && s == []) then (Invalidate(k, c, at), Splice(c, at, n, s)) else (k, c)
    case Reloads(s) =>
      if Valid(s) then (k.(valid := 0, column := k.column.(valid := false), seek := k.seek.(valid := false)), s)
          else (k, c)
    case TabTo(n) =>
      if n < 1 then (k, c) else (k.(tab := n, column := k.column.(valid := false), seek := k.seek.(valid := false)), c)
    case SyntaxTo(syn) =>
      (k.(syntax := syn, valid := 0), c)
    case AsksState(row) =>
      (Fills(k, c, row), c)
    case AsksColumn(p) =>
      if !IsBoundary(c, p) then (k, c)
      else
        var start := LineStart(c, LineOf(c, p));
        (k.(column := Noted(k.column, start, p, Resumed(wc, k.tab, c, ColumnFrom(k.column, start, p), p))), c)
    case Seeks(line, target, r) =>
      var start, end := LineStart(c, line), LineEnd(c, line);
      if !(start <= r <= end && IsBoundary(c, r) && (SeekStart(k.seek, start, target)).0 <= r) then (k, c)
      else (k.(seek := Noted(k.seek, start, r, Resumed(wc, k.tab, c, SeekStart(k.seek, start, target), r))), c)
  }

  lemma {:induction false} FilledOk(syn: Syntax, c: bytes, states: seq<Lex>, valid: nat, row: nat)
    requires LexCacheOk(syn, c, states, valid) && valid <= row + 1
    ensures LexCacheOk(syn, c, Filled(syn, c, states, valid, row), row + 1)
    decreases row + 1 - valid
  {
    hide Line, ScanLine;
    if valid == 0 {
      FilledOk(syn, c, [Normal], 1, row);
    } else if valid <= row {
      var more := states[..valid] + [ScanLine(syn, Line(c, valid - 1), states[valid - 1])];
      assert more[valid] == StateAtRow(syn, c, valid);
      FilledOk(syn, c, more, valid + 1, row);
    }
  }

  /** A coherent checkpoint and the start of the line give the same column. */
  lemma ColumnResumed(wc: nat -> int, tab: nat, c: bytes, k: ColumnCache, p: nat)
    requires tab > 0 && Valid(c) && IsBoundary(c, p) && CacheOk(wc, tab, c, k)
    ensures var start := LineStart(c, LineOf(c, p));
            && Resumed(wc, tab, c, ColumnFrom(k, start, p), p) == ColumnAt(wc, tab, c, p)
            && CacheOk(wc, tab, c, Noted(k, start, p, ColumnAt(wc, tab, c, p)))
  {
    hide Utf8.Valid, CacheOk, ColumnsOf, LineStart, LineOf;
    QueryOnLine(c, p);
    var start := LineStart(c, LineOf(c, p));
    if k.valid && k.lineStart == start && k.point <= p {
      ResumeColumn(wc, tab, c, k, start, p);
    }
    NewCheckpoint(wc, tab, c, start, p);
  }

  lemma SeekResumed(wc: nat -> int, tab: nat, c: bytes, k: ColumnCache, line: nat, target: nat, r: nat)
    requires tab > 0 && Valid(c) && CacheOk(wc, tab, c, k)
    requires LineStart(c, line) <= r <= LineEnd(c, line) && IsBoundary(c, r)
    requires SeekStart(k, LineStart(c, line), target).0 <= r
    ensures var start := LineStart(c, line);
            var col := Resumed(wc, tab, c, SeekStart(k, start, target), r);
            col == ColumnsOf(wc, tab, c[start..r], 0) && CacheOk(wc, tab, c, Noted(k, start, r, col))
  {
    hide Utf8.Valid, CacheOk, ColumnsOf, LineStart, LineEnd;
    var start := LineStart(c, line);
    LineStartBoundary(c, line);
    if k.valid && k.lineStart == start && k.column <= target {
      ResumeColumn(wc, tab, c, k, start, r);
    }
    SeekOnLine(c, line, r);
    NewCheckpoint(wc, tab, c, start, r);
  }

  /** A coherent checkpoint that may start a seek is not beyond its answer. */
  lemma SeekBelow(wc: nat -> int, tab: nat, c: bytes, k: ColumnCache, line: nat, target: nat, r: nat)
    requires tab > 0 && Valid(c) && CacheOk(wc, tab, c, k)
    requires LastWithin(wc, tab, c, LineStart(c, line), LineEnd(c, line), r, target)
    ensures SeekStart(k, LineStart(c, line), target).0 <= r
  {
    hide Utf8.Valid, ColumnsOf, LineStart, LineEnd;
    var start := LineStart(c, line);
    if k.valid && k.lineStart == start && k.column <= target {
      StaysOnLine(c, line, k.point);
    }
  }

  /** A column query keeps the uncached column. */
  lemma NextColumn(wc: nat -> int, k: Caches, c: bytes, p: nat)
    requires CachesOk(wc, k, c) && Valid(c) && IsBoundary(c, p)
    ensures var start := LineStart(c, LineOf(c, p));
            Next(wc, k, c, AsksColumn(p)) == (k.(column := Noted(k.column, start, p, ColumnAt(wc, k.tab, c, p))), c)
  {
    hide Utf8.Valid, LineStart, LineOf, ColumnsOf, Resumed, Noted, LexCacheOk;
    ColumnResumed(wc, k.tab, c, k.column, p);
  }

  /** A column seek keeps the uncached column of its answer. */
  lemma NextSeek(wc: nat -> int, k: Caches, c: bytes, line: nat, target: nat, r: nat)
    requires CachesOk(wc, k, c) && Valid(c)
    requires LastWithin(wc, k.tab, c, LineStart(c, line), LineEnd(c, line), r, target)
    ensures var start := LineStart(c, line);
            var col := ColumnsOf(wc, k.tab, c[start..r], 0);
            Next(wc, k, c, Seeks(line, target, r)) == (k.(seek := Noted(k.seek, start, r, col)), c)
  {
    hide Utf8.Valid, LineStart, LineEnd, ColumnsOf, Resumed, Noted, LexCacheOk;
    SeekBelow(wc, k.tab, c, k.seek, line, target, r);
    SeekResumed(wc, k.tab, c, k.seek, line, target, r);
  }

  lemma NextOk(wc: nat -> int, k: Caches, c: bytes, step: Step)
    requires CachesOk(wc, k, c) && Valid(c)
    ensures var (v, d) := Next(wc, k, c, step); CachesOk(wc, v, d) && Valid(d)
  {
    hide Utf8.Valid, LineStart, LineEnd, LineOf, ColumnsOf, Resumed, Noted, Invalidate, StateAtRow, Filled;
    match step
    case Splices(at, n, s) =>
      if Accepts(c, at, n, s) {
        InvalidateKeeps(wc, k, c, at, n, s);
        ValidSplice(c, at, n, s);
      }
    case Reloads(s) =>
    case TabTo(n) =>
    case SyntaxTo(syn) =>
    case AsksState(row) =>
      if k.valid <= row { FilledOk(k.syntax, c, k.states, k.valid, row); }
    case AsksColumn(p) =>
      if IsBoundary(c, p) { ColumnResumed(wc, k.tab, c, k.column, p); }
    case Seeks(line, target, r) =>
      var start := LineStart(c, line);
      if start <= r <= LineEnd(c, line) && IsBoundary(c, r) && SeekStart(k.seek, start, target).0 <= r {
        SeekResumed(wc, k.tab, c, k.seek, line, target, r);
      }
  }

  function Run(wc: nat -> int, k: Caches, c: bytes, steps: seq<Step>): (Caches, bytes)
    requires CachesOk(wc, k, c) && Valid(c)
    decreases |steps|
  {
    if steps == [] then (k, c)
    else
      NextOk(wc, k, c, steps[0]);
      var (v, d) := Next(wc, k, c, steps[0]);
      Run(wc, v, d, steps[1..])
  }

  /** The next column query counts what an uncached one would. */
  predicate ColumnAgrees(wc: nat -> int, k: Caches, c: bytes, p: nat) {
    IsBoundary(c, p) && k.tab > 0 ==>
      var from := ColumnFrom(k.column, LineStart(c, LineOf(c, p)), p);
      Resumed(wc, k.tab, c, from, p) == ColumnAt(wc, k.tab, c, p)
  }

  /** A seek from the cache can find the answer of an uncached one, and counts
      the same column there. */
  predicate SeekAgrees(wc: nat -> int, k: Caches, c: bytes, line: nat, target: nat, r: nat) {
    var start := LineStart(c, line);
    k.tab > 0 && LastWithin(wc, k.tab, c, start, LineEnd(c, line), r, target) ==>
      && SeekStart(k.seek, start, target).0 <= r
      && Resumed(wc, k.tab, c, SeekStart(k.seek, start, target), r) == ColumnsOf(wc, k.tab, c[start..r], 0)
  }

  lemma CoherentAgrees(wc: nat -> int, k: Caches, c: bytes, p: nat, line: nat, target: nat, r: nat)
    requires CachesOk(wc, k, c) && Valid(c)
    ensures ColumnAgrees(wc, k, c, p) && SeekAgrees(wc, k, c, line, target, r)
  {
    hide Utf8.Valid, ColumnsOf, LineStart, LineEnd, LineOf, Resumed, Noted, ColumnFrom, SeekStart, LexCacheOk, CacheOk;
    if IsBoundary(c, p) { ColumnResumed(wc, k.tab, c, k.column, p); }
    if LastWithin(wc, k.tab, c, LineStart(c, line), LineEnd(c, line), r, target) {
      SeekBelow(wc, k.tab, c, k.seek, line, target, r);
      SeekResumed(wc, k.tab, c, k.seek, line, target, r);
    }
  }

  /** After any interleaving of edits, reloads, option changes and queries every
      cached lexical state is that of a full rescan, and the next column query
      and the next seek answer as if nothing were cached. */
  lemma {:induction false} RunCoherent(wc: nat -> int, k: Caches, c: bytes, steps: seq<Step>, row: nat, p: nat,
                                       line: nat, target: nat, r: nat)
    requires CachesOk(wc, k, c) && Valid(c)
    ensures var (v, d) := Run(wc, k, c, steps);
            && v.tab > 0 && v.valid <= |v.states|
            && (row < v.valid ==> v.states[row] == StateAtRow(v.syntax, d, row))
            && ColumnAgrees(wc, v, d, p) && SeekAgrees(wc, v, d, line, target, r)
    decreases |steps|
  {
    hide Next, Utf8.Valid, StateAtRow, ColumnAgrees, SeekAgrees;
    if steps == [] {
      CoherentAgrees(wc, k, c, p, line, target, r);
    } else {
      NextOk(wc, k, c, steps[0]);
      var (v, d) := Next(wc, k, c, steps[0]);
      RunCoherent(wc, v, d, steps[1..], row, p, line, target, r);
    }
  }
}
