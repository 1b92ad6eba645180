/** The buffer: a text store with its history, cursors and caches, changed in
    place by editor_replace and undo. */
module Buffers {
  import opened Bytes
  import opened Utf8
  import opened PieceTree
  import opened TextStore
  import opened History
  import opened Lexer
  import opened Columns
  import opened Diff
  import opened Document
  import CacheRuns

  class Buffer {
    const wcwidth: nat -> int
    var text: Text
    var point: nat
    var mark: nat
    var hasMark: bool
    var markActive: bool
    var goalValid: bool
    var readonly: bool
    var revision: nat
    var state: nat
    var savedState: nat
    var history: seq<Edit>
    var historyPos: nat
    var tabWidth: nat
    var syntax: Syntax
    var lexStates: seq<Lex>
    var lexValid: nat
    var columnCache: ColumnCache
    var seekCache: ColumnCache

    ghost var origin: Origin
    ghost var savedText: bytes
    ghost var issued: nat
    ghost var Repr: set<object>

    ghost function DocOf(c: bytes): Doc
      reads this
    {
      Doc(c, point, mark, hasMark, markActive, goalValid, readonly, revision, state, savedState, history, historyPos)
    }

    ghost function Contents(): bytes
      reads this, text, text.root
    {
      text.Contents()
    }

    /** The document as a value. */
    ghost function D(): Doc
      reads this, text, text.root
    {
      DocOf(text.Contents())
    }

    ghost function K(): Caches
      reads this
    {
      Caches(syntax, lexStates, lexValid, tabWidth, columnCache, seekCache)
    }

    /** What edits and undo leave alone. */
    ghost function Fixed(): (Origin, bytes, Text, Syntax, seq<Lex>, nat)
      reads this
    {
      (origin, savedText, text, syntax, lexStates, tabWidth)
    }

    ghost predicate Shape()
      reads this, Repr
    {
      && this in Repr && text in Repr && text.Repr <= Repr && this !in text.Repr && text.Valid()
    }

    ghost predicate Valid()
      reads this, Repr
      ensures Valid() ==> this in Repr && historyPos <= |history|
    {
      && Shape()
      && DocOk(origin, D(), savedText, issued)
      && CachesOk(wcwidth, K(), text.Contents())
    }

    /** editor_new_buffer, or the load of a file already checked. */
    constructor (s: bytes, wc: nat -> int, tab: nat)
      requires Utf8.Valid(s) && tab > 0
      ensures Valid() && fresh(Repr)
      ensures D() == Opened(s, 0).doc && Contents() == s && issued == 0
      ensures K() == Caches(Syntax(0, false), [], 0, tab, ColumnCache(0, 0, 0, false), ColumnCache(0, 0, 0, false))
    {
      wcwidth := wc;
      var t := new Text(s);
      text := t;
      point, mark, revision, state, savedState, historyPos := 0, 0, 0, 0, 0, 0;
      hasMark, markActive, goalValid, readonly := false, false, false, false;
      history, tabWidth, syntax, lexStates, lexValid := [], tab, Syntax(0, false), [], 0;
      columnCache, seekCache := ColumnCache(0, 0, 0, false), ColumnCache(0, 0, 0, false);
      origin, savedText, issued := Origin(s, 0), s, 0;
      Repr := {this} + t.Repr;
      new;
      OpenedOk(s, 0);
    }

    /** editor_lex_invalidate. */
    method LexInvalidate(at: nat)
      requires text.Valid() && this !in text.Repr
      modifies this`lexValid, this`columnCache, this`seekCache
      ensures K() == Invalidate(old(K()), text.Contents(), at)
    {
      hide Text.Valid, Text.Contents, Count;
      if at < columnCache.point { columnCache := columnCache.(valid := false); }
      if at < seekCache.point { seekCache := seekCache.(valid := false); }
      var row := text.LineIndex(at);
      if lexValid > row + 1 { lexValid := row + 1; }
    }

    /** The two text operations of an accepted replacement. */
    method Exchange(at: nat, n: nat, s: bytes)
      requires Shape() && Accepts(text.Contents(), at, n, s)
      modifies text.Repr
      ensures Owns(old(Repr)) && text == old(text) && fresh(text.Repr - old(text.Repr))
      ensures text.Contents() == Splice(old(text.Contents()), at, n, s)
    {
      hide Text.Valid, Text.Contents, Utf8.Valid;
      ghost var c := text.Contents();
      text.ValidText();
      ValidEmpty();
      BoundaryAfterSplice(c, at, n, [], at);
      var deleted := text.Delete(at, n);
      var inserted := text.Insert(at, s);
      assert text.Contents() == Splice(c, at, n, s) by {
        var d := Splice(c, at, n, []);
        assert d[..at] == c[..at] && d[at..] == c[at + n..];
      }
    }

    /** Shape, but with Repr not yet extended by new nodes. */
    ghost predicate Owns(r: set<object>)
      reads this, text, text.Repr
    {
      && this in r && text in r && this !in text.Repr && text.Valid()
    }

    /** editor_replace. The result `next` is the editor's state counter. */
    method Replace(at: nat, n: nat, s: bytes, group: nat, counter: nat) returns (ok: bool, next: nat)
      requires Valid() && counter >= issued
      modifies Repr
      ensures Valid() && fresh(Repr - old(Repr))
      ensures ok == (!old(readonly) && Accepts(old(Contents()), at, n, s))
      ensures D() == if ok then Edited(old(D()), at, n, s, group, counter + 1) else old(D())
      ensures K() == if ok && !(n == 0 && s == []) then Invalidate(old(K()), old(Contents()), at) else old(K())
      ensures next == if ok && !(n == 0 && s == []) then counter + 1 else counter
      ensures issued == if ok then Issued(old(issued), n, s, counter + 1) else old(issued)
      ensures issued <= next && Fixed() == old(Fixed())
    {
      hide Text.Valid, Text.Contents, Utf8.Valid, DocOk, CachesOk, Aligned;
      next := counter;
      if readonly { return false, next; }
      var size := text.Length();
      if at > size || n > size - at { return false, next; }
      var first := text.Boundary(at);
      var last := text.Boundary(at + n);
      var valid := Utf8Valid(s);
      if !first || !last || !valid { return false, next; }
      if n == 0 && |s| == 0 { return true, next; }
      next := counter + 1;
      Record(at, n, s, group, next);
      return true, next;
    }

    /** Invalidate the caches from the edited offset on, then edit the text. */
    method Swap(at: nat, n: nat, s: bytes)
      requires Shape() && CachesOk(wcwidth, K(), text.Contents()) && Accepts(text.Contents(), at, n, s)
      modifies Repr
      ensures Shape() && fresh(Repr - old(Repr)) && text == old(text)
      ensures D() == old(D()).(text := Splice(old(Contents()), at, n, s))
      ensures K() == Invalidate(old(K()), old(Contents()), at)
      ensures CachesOk(wcwidth, K(), text.Contents())
      ensures issued == old(issued) && Fixed() == old(Fixed())
    {
      hide Text.Valid, Text.Contents, Utf8.Valid, CachesOk, Invalidate, Accepts;
      AcceptsRange(text.Contents(), at, n, s);
      text.ValidText();
      InvalidateKeeps(wcwidth, K(), text.Contents(), at, n, s);
      LexInvalidate(at);
      Exchange(at, n, s);
      Repr := Repr + text.Repr;
    }

    /** editor_replace after its checks. */
    method Record(at: nat, n: nat, s: bytes, group: nat, stamp: nat)
      requires Valid() && stamp > issued && Accepts(Contents(), at, n, s) && !(n == 0 && s == [])
      modifies Repr
      ensures Valid() && fresh(Repr - old(Repr))
      ensures D() == Edited(old(D()), at, n, s, group, stamp)
      ensures K() == Invalidate(old(K()), old(Contents()), at)
      ensures issued == stamp && Fixed() == old(Fixed())
    {
      hide Shape, DocOk, CachesOk, Invalidate, Accepts, Edited, K, Text.Contents, Splice;
      ghost var d := D();
      EditedOk(origin, d, at, n, s, group, stamp, savedText, issued);
      PosInRange(origin, d, savedText, issued);
      AcceptsRange(d.text, at, n, s);
      var removed := CutOut(at, n);
      Swap(at, n, s);
      Commit(at, n, s, removed, group, stamp, d);
    }

    method CutOut(at: nat, n: nat) returns (removed: bytes)
      requires Shape() && at + n <= |text.Contents()|
      ensures removed == text.Contents()[at..at + n]
    {
      removed := text.Slice(at, n);
    }

    /** The bookkeeping of editor_replace, once the text is exchanged. */
    method Commit(at: nat, n: nat, s: bytes, removed: bytes, group: nat, stamp: nat, ghost d: Doc)
      requires Shape() && at + n <= |d.text| && d.pos <= |d.history|
      requires D() == d.(text := Splice(d.text, at, n, s)) && removed == d.text[at..at + n] && !(n == 0 && s == [])
      modifies this`point, this`mark, this`state, this`history, this`historyPos, this`revision, this`markActive,
               this`goalValid, this`issued
      ensures Shape() && D() == Edited(d, at, n, s, group, stamp)
      ensures K() == old(K()) && issued == stamp && Fixed() == old(Fixed())
    {
      hide Shape, Text.Contents, Splice;
      var p := Relocate(point, at, n, |s|, true);
      var m := Relocate(mark, at, n, |s|, false);
      var e := Edit(at, removed, s, point, p, mark, m, group, state, stamp);
      Settle(p, m, stamp, history[..historyPos] + [e], historyPos + 1);
      Deactivate(stamp);
    }

    method Deactivate(ghost stamp: nat)
      requires Shape()
      modifies this`markActive, this`goalValid, this`issued
      ensures Shape() && issued == stamp && D() == old(D()).(markActive := false, goalValid := false)
    {
      hide Text.Valid, Text.Contents;
      markActive, goalValid, issued := false, false, stamp;
    }

    /** The assignments that end a recorded, reverted or reapplied edit. */
    method Settle(p: nat, m: nat, stamp: nat, h: seq<Edit>, pos: nat)
      requires Shape()
      modifies this`point, this`mark, this`state, this`history, this`historyPos, this`revision
      ensures Shape() && K() == old(K())
      ensures D() == old(D()).(point := p, mark := m, state := stamp, history := h, pos := pos,
              revision := old(D()).revision + 1)
    {
      hide Shape, Text.Contents, K;
      SetCursors(p, m);
      SetHistory(stamp, h, pos);
    }

    method SetCursors(p: nat, m: nat)
      requires Shape()
      modifies this`point, this`mark
      ensures Shape() && K() == old(K()) && D() == old(D()).(point := p, mark := m)
    {
      hide Text.Valid, Text.Contents;
      point, mark := p, m;
    }

    method SetHistory(stamp: nat, h: seq<Edit>, pos: nat)
      requires Shape()
      modifies this`state, this`history, this`historyPos, this`revision
      ensures Shape() && K() == old(K())
      ensures D() == old(D()).(state := stamp, history := h, pos := pos, revision := old(D()).revision + 1)
    {
      hide Text.Valid, Text.Contents;
      state, history, historyPos, revision := stamp, h, pos, revision + 1;
    }

    /** editor_set_text: replace only the part that differs. */
    method SetText(s: bytes, group: nat, counter: nat) returns (ok: bool, next: nat)
      requires Valid() && counter >= issued
      modifies Repr
      ensures Valid() && fresh(Repr - old(Repr))
      ensures ok == (Utf8.Valid(s) && (old(Contents()) == s || !old(readonly)))
      ensures ok ==> Contents() == s
      ensures !ok || old(Contents()) == s ==> D() == old(D()) && K() == old(K()) && next == counter
      ensures ok && old(Contents()) != s ==> next == counter + 1 && SetTo(old(D()), D(), s, group, counter + 1)
      ensures issued <= next && Fixed() == old(Fixed())
    {
      hide Shape, Text.Contents, Utf8.Valid, DocOk, CachesOk, IsDiff, SetTo, K, Fixed, D;
      next := counter;
      var valid := Utf8Valid(s);
      if !valid { return false, next; }
      var head, tail, same := Compare(s);
      if same { return true, next; }
      ok, next := ReplaceMiddle(head, tail, s, group, counter);
    }

    method Compare(s: bytes) returns (head: nat, tail: nat, same: bool)
      requires Shape() && Utf8.Valid(s)
      ensures IsDiff(text.Contents(), s, head, tail) && same == (text.Contents() == s)
    {
      hide Text.Valid, Text.Contents, Utf8.Valid, IsDiff;
      ContentsValid();
      var size := text.Length();
      var all := text.Slice(0, size);
      assert all == text.Contents();
      head, tail := FindDiff(all, s);
      DiffRange(all, s, head, tail);
      same := head == size && head == |s|;
    }

    method ReplaceMiddle(head: nat, tail: nat, s: bytes, group: nat, counter: nat) returns (ok: bool, next: nat)
      requires Valid() && counter >= issued && Utf8.Valid(s) && IsDiff(Contents(), s, head, tail) && Contents() != s
      modifies Repr
      ensures Valid() && fresh(Repr - old(Repr)) && ok == !old(readonly)
      ensures ok ==> Contents() == s && next == counter + 1 && SetTo(old(D()), D(), s, group, counter + 1)
      ensures !ok ==> D() == old(D()) && K() == old(K()) && next == counter
      ensures issued <= next && Fixed() == old(Fixed())
    {
      hide Shape, Text.Contents, Utf8.Valid, DocOk, CachesOk, IsDiff, Accepts, K, Fixed, Splice, Invalidate;
      ghost var d := D();
      var size := LengthOf();
      ContentsValid();
      DiffAccepted(d.text, s, head, tail);
      DiffRange(d.text, s, head, tail);
      SpliceNothing(d.text, head);
      ok, next := Replace(head, size - head - tail, s[head..|s| - tail], group, counter);
    }

    method LengthOf() returns (n: nat)
      requires Shape()
      ensures n == |text.Contents()|
    {
      n := text.Length();
    }

    /** The end of editor_save: the text on disk is now this one. */
    method MarkSaved()
      requires Valid()
      modifies this`savedState, this`savedText
      ensures Valid() && D() == old(D()).(savedState := old(state)) && savedText == Contents()
    {
      hide Text.Valid, Text.Contents, CachesOk, HistoryOk, SavedOk;
      SaveSaved(origin, history, historyPos, savedState, savedText, issued);
      savedState := state;
      savedText := text.Contents();
    }

    /** py_log: a diagnostic buffer gets a whole new text; its history starts
        anew and it counts as unmodified. */
    method ResetLog(s: bytes, counter: nat) returns (ok: bool, next: nat)
      requires Valid() && counter >= issued
      modifies Repr
      ensures Valid() && fresh(Repr - old(Repr)) && ok == Utf8.Valid(s)
      ensures D() == if ok then Logged(old(D()), s, counter + 1) else old(D())
      ensures ok ==> savedText == s && origin == Origin(s, counter + 1)
      ensures ok ==> lexValid == 0 && !columnCache.valid && !seekCache.valid
      ensures next == if ok then counter + 1 else counter
      ensures issued == if ok then next else old(issued)
    {
      hide Shape, Text.Valid, Text.Contents, Utf8.Valid, DocOk, Logged, DocOf, K, CachesOk;
      next := counter;
      ok := Utf8Valid(s);
      if !ok { return; }
      next := counter + 1;
      ghost var d := D();
      DocOfText(Contents(), s);
      LoggedText(d, s, next);
      LoggedOk(d, s, next);
      NoCaches(wcwidth, K(), Contents(), s);
      var t := new Text(s);
      Restart(s, next);
      DropCaches();
      Install(t);
    }

    method Install(t: Text)
      requires Adoptable(t)
      modifies `text, `Repr
      ensures Shape() && text == t && Repr == old(Repr) + t.Repr
      ensures D() == DocOf(t.Contents()) && K() == old(K()) && forall c :: DocOf(c) == old(DocOf(c))
    {
      hide Text.Valid, Text.Contents;
      text, Repr := t, Repr + t.Repr;
    }

    /** A text that may become this buffer's. */
    ghost predicate Adoptable(t: Text)
      reads this, t, t.Repr
    {
      this in Repr && t in t.Repr && this !in t.Repr && t.Valid()
    }

    lemma DocOfText(c: bytes, s: bytes)
      ensures DocOf(c).(text := s) == DocOf(s)
    {
    }

    lemma LoggedText(d: Doc, s: bytes, stamp: nat)
      ensures Logged(d.(text := s), s, stamp) == Logged(d, s, stamp)
    {
    }

    /** The fields of a diagnostic buffer other than its text. */
    method Restart(s: bytes, stamp: nat)
      modifies `point, `mark, `markActive, `hasMark, `history, `historyPos, `revision, `state, `savedState,
               `readonly, `origin, `savedText, `issued
      ensures DocOf(s) == Logged(old(DocOf(s)), s, stamp)
      ensures savedText == s && origin == Origin(s, stamp) && issued == stamp && K() == old(K())
    {
      ghost var d := DocOf(s);
      assert d.text == s;
      hide DocOf;
      Unmark(s);
      Forget(s);
      Restamp(s, stamp);
      Rebase(s, stamp);
      LoggedFields(d, s, stamp);
    }

    lemma LoggedFields(d: Doc, s: bytes, stamp: nat)
      requires d.text == s
      ensures Logged(d, s, stamp) == d.(point := 0, mark := 0, markActive := false, hasMark := false,
        history := [], pos := 0, revision := d.revision + 1, state := stamp, savedState := stamp, readonly := true)
    {
    }

    method Unmark(ghost s: bytes)
      modifies `point, `mark, `markActive, `hasMark
      ensures DocOf(s) == old(DocOf(s)).(point := 0, mark := 0, markActive := false, hasMark := false)
    {
      point, mark, markActive, hasMark := 0, 0, false, false;
    }

    method Forget(ghost s: bytes)
      modifies `history, `historyPos, `revision
      ensures DocOf(s) == old(DocOf(s)).(history := [], pos := 0, revision := old(revision) + 1)
    {
      history, historyPos, revision := [], 0, revision + 1;
    }

    method Restamp(ghost s: bytes, stamp: nat)
      modifies `state, `savedState, `readonly
      ensures DocOf(s) == old(DocOf(s)).(state := stamp, savedState := stamp, readonly := true)
    {
      state, savedState, readonly := stamp, stamp, true;
    }

    ghost method Rebase(s: bytes, stamp: nat)
      modifies `origin, `savedText, `issued
      ensures savedText == s && origin == Origin(s, stamp) && issued == stamp && DocOf(s) == old(DocOf(s))
    {
      origin, savedText, issued := Origin(s, stamp), s, stamp;
    }

    method DropCaches()
      modifies `lexValid, `columnCache, `seekCache
      ensures K() == old(K()).(valid := 0, column := old(K()).column.(valid := false),
              seek := old(K()).seek.(valid := false))
      ensures lexValid == 0 && !columnCache.valid && !seekCache.valid && forall c :: DocOf(c) == old(DocOf(c))
    {
      lexValid := 0;
      columnCache, seekCache := columnCache.(valid := false), seekCache.(valid := false);
    }

    /** The tab_width option (src/python.c:71). */
    method SetTabWidth(n: nat)
      requires Valid() && 1 <= n
      modifies this`tabWidth, this`columnCache, this`seekCache
      ensures Valid() && D() == old(D()) && tabWidth == n
      ensures !columnCache.valid && !seekCache.valid && lexStates == old(lexStates) && lexValid == old(lexValid)
    {
      hide Text.Valid, Text.Contents, DocOk, LexCacheOk;
      tabWidth := n;
      columnCache := columnCache.(valid := false);
      seekCache := seekCache.(valid := false);
    }

    /** A mode change (src/python.c:85). */
    method SetSyntax(syn: Syntax)
      requires Valid()
      modifies this`syntax, this`lexValid
      ensures Valid() && D() == old(D()) && syntax == syn && lexValid == 0
      ensures columnCache == old(columnCache) && seekCache == old(seekCache)
    {
      hide Text.Valid, Text.Contents, DocOk, CacheOk;
      syntax, lexValid := syn, 0;
    }

    /** toggle-read-only and the read_only option. */
    method SetReadonly(on: bool)
      requires Valid()
      modifies this`readonly
      ensures Valid() && D() == old(D()).(readonly := on)
    {
      hide Text.Valid, Text.Contents, CachesOk, HistoryOk, SavedOk, TextAt;
      readonly := on;
    }

    /** Assignments to point and mark by the commands. */
    method SetPoint(p: nat)
      requires Valid()
      modifies this`point
      ensures Valid() && D() == old(D()).(point := p)
    {
      hide Text.Valid, Text.Contents, CachesOk, HistoryOk, SavedOk, TextAt;
      point := p;
    }

    method SetMark(m: nat)
      requires Valid()
      modifies this`mark, this`hasMark
      ensures Valid() && D() == old(D()).(mark := m, hasMark := true)
    {
      hide Text.Valid, Text.Contents, CachesOk, HistoryOk, SavedOk, TextAt;
      mark, hasMark := m, true;
    }

    method SetActive(active: bool)
      requires Valid()
      modifies this`markActive
      ensures Valid() && D() == old(D()).(markActive := active)
    {
      hide Text.Valid, Text.Contents, CachesOk, HistoryOk, SavedOk, TextAt;
      markActive := active;
    }

    /** query_next on a match: point after it, mark before it, both shown. */
    method Select(at: nat, end: nat)
      requires Valid()
      modifies this`point, this`mark, this`hasMark, this`markActive
      ensures Valid() && D() == old(D()).(point := end, mark := at, hasMark := true, markActive := true)
    {
      hide Valid, D, Text.Contents;
      SetPoint(end);
      SetMark(at);
      SetActive(true);
    }

    // ---- Cached queries -----------------------------------------------------------

    /** The offsets of a physical line, its newline left out. */
    method LineBounds(row: nat) returns (a: nat, z: nat)
      requires Shape()
      ensures a == LineStart(text.Contents(), row) <= z == LineEnd(text.Contents(), row)
    {
      hide Text.Valid, Text.Contents, LineStart;
      LineStartMono(text.Contents(), row);
      a := text.LineOffset(row);
      z := text.LineOffset(row + 1);
      if z > a {
        var b := text.ByteAt(z - 1);
        if b == LF { z := z - 1; }
      }
    }

    /** The bytes of a physical line, as state_at reads them. */
    method LineBytes(row: nat) returns (s: bytes)
      requires Shape()
      ensures s == Line(text.Contents(), row)
    {
      hide Text.Valid, Text.Contents, LineStart, LineEnd;
      var a, z := LineBounds(row);
      s := text.Slice(a, z - a);
    }

    /** state_at: the lexical state at the beginning of a row. */
    method StateAtLine(row: nat) returns (st: Lex)
      requires Valid()
      modifies this`lexStates, this`lexValid
      ensures Valid() && D() == old(D()) && lexValid > row
      ensures st == StateAtRow(syntax, Contents(), row)
      ensures K() == CacheRuns.Next(wcwidth, old(K()), Contents(), CacheRuns.AsksState(row)).0
    {
      hide Text.Valid, Text.Contents, Consistent, AtGroupEdge, CacheOk, Line, ScanLine, CacheRuns.Filled;
      ghost var filled := CacheRuns.Filled(syntax, Contents(), lexStates, lexValid, row);
      CacheRuns.FilledStep(syntax, Contents(), lexStates, lexValid, row);
      if lexValid == 0 { lexStates, lexValid := [Normal], 1; }
      while lexValid <= row
        invariant Valid() && D() == old(D()) && 0 < lexValid
        invariant old(lexValid) <= row ==> lexValid <= row + 1
        invariant old(lexValid) > row ==> lexStates == old(lexStates) && lexValid == old(lexValid)
        invariant CacheRuns.Filled(syntax, Contents(), lexStates, lexValid, row) == filled
        decreases row + 1 - lexValid
      {
        CacheRuns.FilledStep(syntax, Contents(), lexStates, lexValid, row);
        ScanRow();
      }
      CacheRuns.FilledStep(syntax, Contents(), lexStates, lexValid, row);
      st := lexStates[row];
    }

    /** One turn of the loop: scan the last line whose state is cached. */
    method ScanRow()
      requires Valid() && 0 < lexValid
      modifies this`lexStates, this`lexValid
      ensures Valid() && D() == old(D()) && lexValid == old(lexValid) + 1
      ensures var line := Line(Contents(), old(lexValid) - 1);
              var next := ScanLine(syntax, line, old(lexStates)[old(lexValid) - 1]);
              lexStates == old(lexStates)[..old(lexValid)] + [next]
    {
      hide Text.Valid, Text.Contents, Consistent, AtGroupEdge, CacheOk, Line, ScanLine;
      var line := lexValid - 1;
      var s := LineBytes(line);
      var next := Scan(syntax, s, lexStates[line]);
      PushState(next);
    }

    /** Cache the state of the next row. */
    method PushState(next: Lex)
      requires Valid() && 0 < lexValid && next == StateAtRow(syntax, Contents(), lexValid)
      modifies this`lexStates, this`lexValid
      ensures Valid() && D() == old(D()) && lexValid == old(lexValid) + 1
      ensures lexStates == old(lexStates)[..old(lexValid)] + [next]
    {
      hide Text.Valid, Text.Contents, Consistent, AtGroupEdge, CacheOk, StateAtRow;
      lexStates := lexStates[..lexValid] + [next];
      lexValid := lexValid + 1;
    }

    /** editor_line_spans without the spans: it is given the whole line, and
        keeps the state after it when that is the next one to be cached. */
    method LineSpans(row: nat, line: bytes) returns (end: Lex)
      requires Valid() && line == Line(Contents(), row)
      modifies this`lexStates, this`lexValid
      ensures Valid() && D() == old(D())
      ensures end == StateAtRow(syntax, Contents(), row + 1)
      ensures CacheRuns.FilledTo(old(K()), K(), Contents(), row)
    {
      hide Text.Valid, Text.Contents, DocOk, CachesOk, Line, CacheRuns.Filled;
      ghost var k := K();
      if syntax.kind == 0 { return Normal; }
      var st := StateAtLine(row);
      end := Scan(syntax, line, st);
      var rows := text.LineCount();
      if row + 1 < rows && row + 1 == lexValid {
        PushNext(row, end);
      }
    }

    /** Cache the state after the last cached row. */
    method PushNext(row: nat, end: Lex)
      requires Valid() && row + 1 == lexValid && end == StateAtRow(syntax, Contents(), row + 1)
      modifies this`lexStates, this`lexValid
      ensures Valid() && D() == old(D()) && K() == CacheRuns.Fills(old(K()), Contents(), row + 1)
    {
      hide Text.Valid, Text.Contents, Consistent, AtGroupEdge, CacheOk, CacheRuns.Fills, StateAtRow;
      CacheRuns.FillsOne(K(), Contents());
      PushState(end);
    }

    /** editor_column. */
    method Column(p: nat) returns (col: nat)
      requires Valid() && IsBoundary(Contents(), p)
      modifies this`columnCache
      ensures Valid() && D() == old(D())
      ensures col == ColumnAt(wcwidth, tabWidth, Contents(), p)
      ensures K() == CacheRuns.Next(wcwidth, old(K()), Contents(), CacheRuns.AsksColumn(p)).0
    {
      hide Text.Valid, Text.Contents, Consistent, AtGroupEdge, CacheOk, LexCacheOk;
      hide LineStart, LineOf, ColumnsOf, Utf8.Valid, CacheRuns.Next;
      ghost var c := text.Contents();
      text.ValidText();
      CacheRuns.NextColumn(wcwidth, K(), c, p);
      QueryOnLine(c, p);
      var line := text.LineIndex(p);
      var start := text.LineOffset(line);
      var at, from := start, 0;
      if columnCache.valid && columnCache.lineStart == start && columnCache.point <= p {
        ResumeColumn(wcwidth, tabWidth, c, columnCache, start, p);
        at, from := columnCache.point, columnCache.column;
      }
      var end;
      end, col := ScanColumns(text, wcwidth, tabWidth, at, p, from, 0, false);
      NewCheckpoint(wcwidth, tabWidth, c, start, p);
      if p - start > 4096 {
        columnCache := ColumnCache(p, col, start, true);
      }
    }

    /** Where editor_at_column_ex starts to scan: the line or the checkpoint. */
    method SeekFrom(ghost line: nat, start: nat, column: nat) returns (at: nat, from: nat)
      requires Valid() && start == LineStart(Contents(), line)
      ensures start <= at <= LineEnd(Contents(), line) && IsBoundary(Contents(), at) && from <= column
      ensures from == ColumnsOf(wcwidth, tabWidth, Contents()[start..at], 0)
    {
      hide Text.Valid, Text.Contents, DocOk, CacheOk, LexCacheOk, LineStart, ColumnsOf, Utf8.Valid;
      ghost var c := text.Contents();
      text.ValidText();
      LineStartBoundary(c, line);
      LineEndBoundary(c, line);
      ColumnsEmpty(wcwidth, tabWidth, c, start, 0);
      at, from := start, 0;
      if seekCache.valid && seekCache.lineStart == start && seekCache.column <= column {
        CheckpointOnLine(wcwidth, tabWidth, c, seekCache, line);
        at, from := seekCache.point, seekCache.column;
      }
    }

    /** editor_at_column_ex. */
    method AtColumn(line: nat, column: nat) returns (r: nat, actual: nat)
      requires Valid()
      modifies this`seekCache
      ensures Valid() && D() == old(D())
      ensures LastWithin(wcwidth, tabWidth, Contents(), LineStart(Contents(), line), LineEnd(Contents(), line), r,
              column)
      ensures LineStart(Contents(), line) <= r <= |Contents()|
              && actual == ColumnsOf(wcwidth, tabWidth, Contents()[LineStart(Contents(), line)..r], 0)
      ensures K() == CacheRuns.Next(wcwidth, old(K()), Contents(), CacheRuns.Seeks(line, column, r)).0
    {
      hide Shape, Text.Contents, DocOk, CachesOk, LineStart, LineEnd, ColumnsOf, Utf8.Valid, StopsAt, LastWithin;
      hide CacheRuns.Next, CacheRuns.Noted;
      ghost var c := text.Contents();
      ContentsValid();
      LineStartBoundary(c, line);
      LineEndBoundary(c, line);
      var start, end := LineBounds(line);
      var at, from := SeekFrom(line, start, column);
      r, actual := Scanned(at, end, from, column);
      ColumnsSplit(wcwidth, tabWidth, c, start, at, r, 0);
      StopIsLast(wcwidth, tabWidth, c, start, end, r, column);
      CacheRuns.NextSeek(wcwidth, K(), c, line, column, r);
      KeepSeek(start, r, actual, line);
    }

    lemma ContentsValid()
      requires Shape()
      ensures Utf8.Valid(text.Contents())
    {
      text.ValidText();
    }

    /** scan_columns on this buffer, with a limit. */
    method Scanned(at: nat, end: nat, from: nat, target: nat) returns (r: nat, col: nat)
      requires Valid() && at <= end && IsBoundary(text.Contents(), at) && IsBoundary(text.Contents(), end)
               && from <= target
      ensures tabWidth > 0 && at <= r <= end && IsBoundary(text.Contents(), r)
      ensures col == ColumnsOf(wcwidth, tabWidth, text.Contents()[at..r], from) <= target
      ensures StopsAt(wcwidth, tabWidth, text.Contents(), r, end, col, target)
    {
      r, col := ScanColumns(text, wcwidth, tabWidth, at, end, from, target, true);
    }

    method KeepSeek(start: nat, r: nat, col: nat, ghost line: nat)
      requires Valid() && start == LineStart(Contents(), line) <= r <= LineEnd(Contents(), line)
               && IsBoundary(Contents(), r)
      requires col == ColumnsOf(wcwidth, tabWidth, Contents()[start..r], 0)
      modifies this`seekCache
      ensures Valid() && D() == old(D())
      ensures seekCache == CacheRuns.Noted(old(seekCache), start, r, col)
    {
      hide Text.Valid, Text.Contents, DocOk, LexCacheOk, LineStart, LineEnd, ColumnsOf, Utf8.Valid, CacheOk;
      ContentsValid();
      LineStartBoundary(text.Contents(), line);
      SeekOnLine(text.Contents(), line, r);
      NewCheckpoint(wcwidth, tabWidth, text.Contents(), start, r);
      if r - start > 4096 {
        seekCache := ColumnCache(r, col, start, true);
      }
    }

    // ---- undo -------------------------------------------------------------------

    /** Valid, except that historyPos may lie inside a group. */
    ghost predicate ValidInside()
      reads this, Repr
      ensures ValidInside() ==> this in Repr
    {
      && Shape()
      && Consistent(origin, D(), savedText, issued)
      && CachesOk(wcwidth, K(), text.Contents())
    }

    /** Revert or reapply one record. */
    method UndoRecord(redo: bool)
      requires ValidInside() && if redo then historyPos < |history| else historyPos > 0
      modifies Repr
      ensures ValidInside() && fresh(Repr - old(Repr)) && old(historyPos) <= |old(history)|
      ensures D() == Moved(old(origin), old(D()), if redo then old(historyPos) + 1 else old(historyPos) - 1, redo)
      ensures issued == old(issued) && origin == old(origin) && Fixed() == old(Fixed())
    {
      hide Shape, Text.Contents, Consistent, CachesOk, Invalidate, Accepts, TextAt, StateAt, Splice, K;
      ghost var d := D();
      RecordReversible(origin, d, redo, savedText, issued);
      MovedConsistent(origin, d, if redo then historyPos + 1 else historyPos - 1, redo, savedText, issued);
      var e := if redo then history[historyPos] else history[historyPos - 1];
      if redo {
        Swap(e.at, |e.removed|, e.added);
        Settle(e.afterPoint, e.afterMark, e.afterState, history, historyPos + 1);
      } else {
        Swap(e.at, |e.added|, e.removed);
        Settle(e.beforePoint, e.beforeMark, e.beforeState, history, historyPos - 1);
      }
    }

    /** The inner loop of undo: all records of one group. */
    method UndoGroup(redo: bool)
      requires Valid() && historyPos <= |history| && if redo then historyPos < |history| else historyPos > 0
      modifies Repr
      ensures Valid() && fresh(Repr - old(Repr))
      ensures D() == Moved(old(origin), old(D()), GroupEdge(old(history), old(historyPos), redo), redo)
      ensures issued == old(issued) && origin == old(origin) && Fixed() == old(Fixed())
    {
      hide Shape, Text.Contents, Consistent, CachesOk, Moved, K, Fixed, Going, GroupEdge, OneGroup;
      ghost var d, o := D(), origin;
      ghost var goal := GroupEdge(d.history, d.pos, redo);
      var group := history[if redo then historyPos else historyPos - 1].group;
      MovedFields(o, d, if redo then d.pos + 1 else d.pos - 1, redo);
      GoingStart(d.history, d.pos, redo);
      UndoRecord(redo);
      while More(redo, group)
        invariant ValidInside() && fresh(Repr - old(Repr)) && origin == o && Fixed() == old(Fixed())
                  && issued == old(issued)
        invariant Going(d.history, d.pos, historyPos, goal, group, redo)
        invariant D() == Moved(o, d, historyPos, redo) && D().history == d.history
        decreases if redo then |history| - historyPos else historyPos
      {
        UndoMore(redo, group, o, d, goal);
      }
      GoingEnd(d.history, d.pos, historyPos, goal, group, redo);
    }

    /** One more record of the group. */
    method UndoMore(redo: bool, group: nat, ghost o: Origin, ghost d: Doc, ghost goal: nat)
      requires ValidInside() && origin == o && More(redo, group)
      requires Going(d.history, d.pos, historyPos, goal, group, redo)
      requires D() == Moved(o, d, historyPos, redo) && D().history == d.history
      modifies Repr
      ensures ValidInside() && fresh(Repr - old(Repr))
      ensures origin == o && Fixed() == old(Fixed()) && issued == old(issued)
      ensures historyPos == if redo then old(historyPos) + 1 else old(historyPos) - 1
      ensures Going(d.history, d.pos, historyPos, goal, group, redo)
      ensures D() == Moved(o, d, historyPos, redo) && D().history == d.history
    {
      hide Shape, Text.Contents, Consistent, CachesOk, Moved, K, Fixed, Going, GroupEnd, GroupStart, OneGroup;
      GoingStep(d.history, d.pos, historyPos, goal, group, redo);
      MovedOn(o, d, historyPos, if redo then historyPos + 1 else historyPos - 1, redo);
      UndoRecord(redo);
    }

    /** The next record belongs to the group being undone or redone. */
    predicate More(redo: bool, group: nat)
      reads this
    {
      if redo then historyPos < |history| && history[historyPos].group == group
      else 0 < historyPos <= |history| && history[historyPos - 1].group == group
    }

    /** undo and redo, by command count: a negative count reverses it. */
    method Undo(redo: bool, count: int) returns (ok: bool)
      requires Valid() && historyPos <= |history|
      modifies Repr
      ensures Valid() && fresh(Repr - old(Repr))
      ensures var way, n := if count < 0 then !redo else redo, if count < 0 then -count else count;
              if old(readonly) then !ok && D() == old(D()) && K() == old(K())
              else (ok, D()) == Undone(old(origin), old(D()), way, n)
      ensures issued == old(issued) && origin == old(origin) && Fixed() == old(Fixed())
    {
      if readonly { return false; }
      if count < 0 {
        ok := UndoSteps(!redo, -count);
      } else {
        ok := UndoSteps(redo, count);
      }
    }

    method UndoSteps(redo: bool, count: nat) returns (ok: bool)
      requires Valid() && historyPos <= |history|
      modifies Repr
      ensures Valid() && fresh(Repr - old(Repr))
      ensures (ok, D()) == Undone(old(origin), old(D()), redo, count)
      ensures issued == old(issued) && origin == old(origin) && Fixed() == old(Fixed())
    {
      hide Shape, Text.Contents, DocOk, CachesOk, Moved, K, Target;
      TargetSide(history, historyPos, redo, count);
      ok := UndoGroups(redo, count);
      if ok { EndUndo(); }
    }

    /** The outer loop of undo. */
    method UndoGroups(redo: bool, count: nat) returns (ok: bool)
      requires Valid() && historyPos <= |history|
      modifies Repr
      ensures Valid() && fresh(Repr - old(Repr))
      ensures var (done, q) := Target(old(history), old(historyPos), redo, count);
              && ok == done && (if redo then old(historyPos) <= q else q <= old(historyPos))
              && D() == Moved(old(origin), old(D()), q, redo)
      ensures issued == old(issued) && origin == old(origin) && Fixed() == old(Fixed())
    {
      hide Shape, Text.Contents, DocOk, CachesOk, Moved, K, Fixed, AtGroupEdge, OneGroup, GroupEdge;
      hide Target;
      ghost var d, o := D(), origin;
      MovedFields(o, d, d.pos, redo);
      ghost var target := Target(d.history, d.pos, redo, count);
      TargetSide(d.history, d.pos, redo, count);
      var left := count;
      while left > 0
        invariant Valid() && fresh(Repr - old(Repr)) && origin == o && Fixed() == old(Fixed()) && issued == old(issued)
        invariant historyPos <= |d.history| && (if redo then d.pos <= historyPos else historyPos <= d.pos)
        invariant Target(d.history, historyPos, redo, left) == target
        invariant D() == Moved(o, d, historyPos, redo) && history == d.history
      {
        TargetStep(d.history, historyPos, redo, left);
        if (if redo then historyPos == |history| else historyPos == 0) {
          return false;
        }
        UndoNext(redo, o, d);
        left := left - 1;
      }
      TargetHere(d.history, historyPos, redo);
      return true;
    }

    /** One more group. */
    method UndoNext(redo: bool, ghost o: Origin, ghost d: Doc)
      requires Valid() && origin == o && if redo then historyPos < |history| else historyPos > 0
      requires d.pos <= |d.history| && historyPos <= |d.history|
      requires if redo then d.pos <= historyPos else historyPos <= d.pos
      requires D() == Moved(o, d, historyPos, redo) && history == d.history
      modifies Repr
      ensures Valid() && fresh(Repr - old(Repr)) && origin == o && Fixed() == old(Fixed()) && issued == old(issued)
      ensures old(historyPos) <= |d.history| && historyPos == GroupEdge(d.history, old(historyPos), redo)
      ensures historyPos <= |d.history| && if redo then d.pos <= historyPos else historyPos <= d.pos
      ensures D() == Moved(o, d, historyPos, redo) && history == d.history
    {
      hide Shape, Text.Contents, DocOk, CachesOk, Moved, K, Fixed, AtGroupEdge, OneGroup, GroupEdge;
      GroupSide(d.history, historyPos, redo);
      MovedOn(o, d, historyPos, GroupEdge(history, historyPos, redo), redo);
      UndoGroup(redo);
    }

    method EndUndo()
      requires Valid()
      modifies this`markActive
      ensures Valid() && D() == old(D()).(markActive := false) && Repr == old(Repr)
      ensures issued == old(issued) && Fixed() == old(Fixed())
    {
      hide Text.Valid, Text.Contents, CachesOk;
      markActive := false;
    }
  }

  /** Emptied caches are coherent with any text. */
  lemma NoCaches(wc: nat -> int, k: Caches, c: bytes, s: bytes)
    requires CachesOk(wc, k, c)
    ensures CachesOk(wc, k.(valid := 0, column := k.column.(valid := false), seek := k.seek.(valid := false)), s)
  {
  }

  lemma GroupSide(h: seq<Edit>, pos: nat, redo: bool)
    requires pos <= |h| && if redo then pos < |h| else pos > 0
    ensures var q := GroupEdge(h, pos, redo); q <= |h| && if redo then pos < q else q < pos
  {
  }

  /** While one group is undone or redone, its end stays the same. */
  ghost predicate Going(h: seq<Edit>, start: nat, pos: nat, goal: nat, group: nat, redo: bool)
    ensures Going(h, start, pos, goal, group, redo) ==> start <= |h| && pos <= |h|
    ensures Going(h, start, pos, goal, group, redo) ==> if redo then start < pos else pos < start
  {
    && start <= |h| && pos <= |h|
    && if redo then start < pos && GroupEnd(h, pos - 1) == goal && h[pos - 1].group == group
       else pos < start && GroupStart(h, pos + 1) == goal && h[pos].group == group
  }

  lemma GoingStart(h: seq<Edit>, pos: nat, redo: bool)
    requires pos <= |h| && if redo then pos < |h| else pos > 0
    ensures if redo then Going(h, pos, pos + 1, GroupEdge(h, pos, redo), h[pos].group, redo)
            else Going(h, pos, pos - 1, GroupEdge(h, pos, redo), h[pos - 1].group, redo)
  {
  }

  lemma GoingStep(h: seq<Edit>, start: nat, pos: nat, goal: nat, group: nat, redo: bool)
    requires Going(h, start, pos, goal, group, redo)
    requires if redo then pos < |h| && h[pos].group == group else pos > 0 && h[pos - 1].group == group
    ensures Going(h, start, if redo then pos + 1 else pos - 1, goal, group, redo)
  {
  }

  lemma GoingEnd(h: seq<Edit>, start: nat, pos: nat, goal: nat, group: nat, redo: bool)
    requires Going(h, start, pos, goal, group, redo)
    requires !if redo then pos < |h| && h[pos].group == group else pos > 0 && h[pos - 1].group == group
    ensures pos == goal && AtGroupEdge(h, pos)
  {
  }

  /** editor_set_text went through the smallest replacement. */
  ghost predicate SetTo(before: Doc, after: Doc, s: bytes, group: nat, stamp: nat)
    requires before.pos <= |before.history|
  {
    exists head: nat, tail: nat ::
      && IsDiff(before.text, s, head, tail)
      && after == Edited(before, head, |before.text| - head - tail, s[head..|s| - tail], group, stamp)
  }

  lemma SpliceNothing(c: bytes, at: nat)
    requires at <= |c|
    ensures Splice(c, at, 0, []) == c
  {
  }

  lemma DiffRange(was: bytes, s: bytes, head: nat, tail: nat)
    requires IsDiff(was, s, head, tail)
    ensures head + tail <= |was| && head + tail <= |s| && was[..head] == s[..head]
    ensures was == s ==> head == |s|
  {
    if was == s { assert CommonHead(was, s, |s|); }
  }

  lemma CheckpointOnLine(wc: nat -> int, tab: nat, c: bytes, k: ColumnCache, line: nat)
    requires tab > 0 && k.valid && CacheOk(wc, tab, c, k) && k.lineStart == LineStart(c, line)
    ensures k.lineStart <= k.point <= LineEnd(c, line) && IsBoundary(c, k.point)
    ensures k.column == ColumnsOf(wc, tab, c[k.lineStart..k.point], 0)
  {
    StaysOnLine(c, line, k.point);
  }

  /** The record next to the position can be reverted or reapplied, and doing
      so gives the neighbouring text of the replay. */
  lemma RecordReversible(o: Origin, d: Doc, redo: bool, savedText: bytes, issued: nat)
    requires Consistent(o, d, savedText, issued) && if redo then d.pos < |d.history| else d.pos > 0
    ensures d.pos <= |d.history|
    ensures var e := if redo then d.history[d.pos] else d.history[d.pos - 1];
            var n, s := if redo then |e.removed| else |e.added|, if redo then e.added else e.removed;
            && Accepts(d.text, e.at, n, s)
            && Splice(d.text, e.at, n, s) == TextAt(o, d.history, if redo then d.pos + 1 else d.pos - 1)
            && (if redo then e.afterState else e.beforeState)
               == StateAt(o, d.history, if redo then d.pos + 1 else d.pos - 1)
  {
    hide Valid;
    if redo {
      assert RecordOk(o, d.history, d.pos);
    } else {
      assert RecordOk(o, d.history, d.pos - 1);
      TextAtValid(o, d.history, d.pos - 1);
      RevertApplies(TextAt(o, d.history, d.pos - 1), d.history[d.pos - 1]);
    }
  }

  lemma PosInRange(o: Origin, d: Doc, savedText: bytes, issued: nat)
    requires DocOk(o, d, savedText, issued)
    ensures d.pos <= |d.history| && d.text == TextAt(o, d.history, d.pos)
  {
  }

  lemma AcceptsRange(c: bytes, at: nat, n: nat, s: bytes)
    requires Accepts(c, at, n, s)
    ensures at + n <= |c| && ClampedSlice(c, at, at + n) == c[at..at + n]
  {
  }
}
