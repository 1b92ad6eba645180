/** A buffer's editing state as a value, and what each step does to it. */
module Document {
  import opened Bytes
  import opened Utf8
  import opened History
  import opened Lexer
  import opened Columns

  datatype Doc = Doc(
    text: bytes, point: nat, mark: nat, hasMark: bool, markActive: bool, goalValid: bool, readonly: bool,
    revision: nat, state: nat, savedState: nat, history: seq<Edit>, pos: nat)

  datatype Caches = Caches(syntax: Syntax, states: seq<Lex>, valid: nat, tab: nat, column: ColumnCache,
      seek: ColumnCache)

  // ---- Invariants -------------------------------------------------------------

  /** Replaying the first `pos` records gives the text and the state id, and the
      state id of the last save still stands for the text saved then. */
  predicate Consistent(o: Origin, d: Doc, savedText: bytes, issued: nat) {
    && HistoryOk(o, d.history) && d.pos <= |d.history|
    && d.text == TextAt(o, d.history, d.pos)
    && d.state == StateAt(o, d.history, d.pos)
    && SavedOk(o, d.history, d.savedState, savedText, issued)
  }

  predicate DocOk(o: Origin, d: Doc, savedText: bytes, issued: nat) {
    Consistent(o, d, savedText, issued) && AtGroupEdge(d.history, d.pos)
  }

  predicate CachesOk(wc: nat -> int, k: Caches, c: bytes) {
    && k.tab > 0
    && LexCacheOk(k.syntax, c, k.states, k.valid)
    && CacheOk(wc, k.tab, c, k.column) && CacheOk(wc, k.tab, c, k.seek)
  }

  /** Point, mark and every recorded cursor are code-point boundaries. */
  predicate Aligned(o: Origin, d: Doc) {
    && d.pos <= |d.history| && CursorsOk(o, d.history)
    && IsBoundary(d.text, d.point) && IsBoundary(d.text, d.mark)
  }

  /** The modified flag never hides a change: an unmodified buffer shows the
      text of its last save. */
  lemma CleanMeansSaved(o: Origin, d: Doc, savedText: bytes, issued: nat)
    requires DocOk(o, d, savedText, issued) && d.state == d.savedState
    ensures d.text == savedText
  {
  }

  // ---- editor_replace -----------------------------------------------------------

  function NewEdit(d: Doc, at: nat, n: nat, s: bytes, group: nat, stamp: nat): Edit
    requires at + n <= |d.text|
  {
    Edit(at, d.text[at..at + n], s,
         d.point, Relocate(d.point, at, n, |s|, true), d.mark, Relocate(d.mark, at, n, |s|, false),
         group, d.state, stamp)
  }

  function Edited(d: Doc, at: nat, n: nat, s: bytes, group: nat, stamp: nat): Doc
    requires at + n <= |d.text| && d.pos <= |d.history|
  {
    if n == 0 && s == [] then d
    else
      d.(text := Splice(d.text, at, n, s),
         point := Relocate(d.point, at, n, |s|, true), mark := Relocate(d.mark, at, n, |s|, false),
         markActive := false, goalValid := false, revision := d.revision + 1, state := stamp,
         history := Push(d.history, d.pos, NewEdit(d, at, n, s, group, stamp)), pos := d.pos + 1)
  }

  /** The highest state id given out once a replacement is done. */
  function Issued(issued: nat, n: nat, s: bytes, stamp: nat): nat {
    if n == 0 && s == [] then issued else stamp
  }

  lemma EditedOk(o: Origin, d: Doc, at: nat, n: nat, s: bytes, group: nat, stamp: nat, savedText: bytes, issued: nat)
    requires DocOk(o, d, savedText, issued) && Accepts(d.text, at, n, s) && stamp > issued
    ensures DocOk(o, Edited(d, at, n, s, group, stamp), savedText, Issued(issued, n, s, stamp))
  {
    hide Valid, TextAt, HistoryOk, SavedOk;
    if !(n == 0 && s == []) {
      var e := NewEdit(d, at, n, s, group, stamp);
      StateIssued(o, d, savedText, issued);
      PushKeeps(o, d.history, d.pos, e);
      PushSaved(o, d.history, d.pos, e, d.savedState, savedText, issued);
    }
  }

  lemma StateIssued(o: Origin, d: Doc, savedText: bytes, issued: nat)
    requires Consistent(o, d, savedText, issued)
    ensures d.state <= issued
  {
  }

  /** Boundary cursors stay boundary cursors. */
  lemma EditedAligned(o: Origin, d: Doc, at: nat, n: nat, s: bytes, group: nat, stamp: nat, savedText: bytes,
      issued: nat)
    requires DocOk(o, d, savedText, issued) && Accepts(d.text, at, n, s) && stamp > issued
    requires Aligned(o, d)
    ensures Aligned(o, Edited(d, at, n, s, group, stamp))
  {
    hide Valid, TextAt, HistoryOk, SavedOk;
    if !(n == 0 && s == []) {
      StateIssued(o, d, savedText, issued);
      PushCursors(o, d.history, d.pos, NewEdit(d, at, n, s, group, stamp));
    }
  }

  /** An edit that changes something shows as a modification, whatever was saved
      before; one that changes nothing leaves the document as it is. */
  lemma EditShows(o: Origin, d: Doc, at: nat, n: nat, s: bytes, group: nat, stamp: nat, savedText: bytes, issued: nat)
    requires DocOk(o, d, savedText, issued) && Accepts(d.text, at, n, s) && stamp > issued
    ensures var e := Edited(d, at, n, s, group, stamp);
            if n == 0 && s == [] then e == d
            else
              && e.text == d.text[..at] + s + d.text[at + n..] && e.state != e.savedState == d.savedState
              && !e.markActive && !e.goalValid && e.hasMark == d.hasMark && e.revision == d.revision + 1
  {
    hide TextAt, StateAt, HistoryOk, Valid, Accepts;
  }

  /** Where an edit leaves point and mark: before the edited range nothing
      moves, behind it the text behind the cursor stays the same, and inside it
      the cursor goes behind the new bytes. Where the range begins, point goes
      behind the new bytes and mark stays. */
  lemma EditCursors(d: Doc, at: nat, n: nat, s: bytes, group: nat, stamp: nat)
    requires at + n <= |d.text| && d.pos <= |d.history| && !(n == 0 && s == [])
    requires d.point <= |d.text| && d.mark <= |d.text|
    ensures var e := Edited(d, at, n, s, group, stamp);
            && e.point <= |e.text| && e.mark <= |e.text|
            && (d.point < at ==> e.point == d.point && e.text[..e.point] == d.text[..d.point])
            && (at <= d.point <= at + n ==> e.point == at + |s| && e.text[..e.point] == d.text[..at] + s)
            && (at + n <= d.point ==> e.text[e.point..] == d.text[d.point..])
            && (d.mark <= at ==> e.mark == d.mark && e.text[..e.mark] == d.text[..d.mark])
            && (at < d.mark <= at + n ==> e.mark == at + |s|)
            && (at + n < d.mark ==> e.text[e.mark..] == d.text[d.mark..])
  {
    RelocateTracks(d.text, at, n, s, d.point, true);
    RelocateTracks(d.text, at, n, s, d.mark, false);
  }

  // ---- undo ----------------------------------------------------------------------

  function Distance(a: nat, b: nat): nat {
    if a < b then b - a else a - b
  }

  /** The document after undo or redo moved through records to position q. */
  function Moved(o: Origin, d: Doc, q: nat, redo: bool): Doc
    requires q <= |d.history| && d.pos <= |d.history|
    requires if redo then d.pos <= q else q <= d.pos
  {
    if q == d.pos then d
    else
      var e := if redo then d.history[q - 1] else d.history[q];
      d.(text := TextAt(o, d.history, q), pos := q, state := StateAt(o, d.history, q),
         point := if redo then e.afterPoint else e.beforePoint,
         mark := if redo then e.afterMark else e.beforeMark,
         revision := d.revision + Distance(d.pos, q))
  }

  lemma MovedFields(o: Origin, d: Doc, q: nat, redo: bool)
    requires q <= |d.history| && d.pos <= |d.history| && if redo then d.pos <= q else q <= d.pos
    ensures var m := Moved(o, d, q, redo);
            && m.history == d.history && m.pos == q && m.readonly == d.readonly
            && m.savedState == d.savedState && m.markActive == d.markActive
    ensures Moved(o, d, d.pos, redo) == d
  {
    hide TextAt, StateAt;
  }

  /** Moving on from where a move ended. */
  lemma MovedOn(o: Origin, d: Doc, p: nat, q: nat, redo: bool)
    requires p <= |d.history| && q <= |d.history| && d.pos <= |d.history|
    requires if redo then d.pos <= p <= q else q <= p <= d.pos
    ensures Moved(o, d, p, redo).history == d.history && Moved(o, d, p, redo).pos == p
    ensures Moved(o, d, q, redo).history == d.history && Moved(o, d, q, redo).pos == q
    ensures Moved(o, Moved(o, d, p, redo), q, redo) == Moved(o, d, q, redo)
  {
    hide TextAt, StateAt;
    MovedFields(o, d, p, redo);
    MovedFields(o, d, q, redo);
    if p != d.pos && q != p { MovedTwice(o, d, p, q, redo); }
  }

  lemma MovedTwice(o: Origin, d: Doc, p: nat, q: nat, redo: bool)
    requires p <= |d.history| && q <= |d.history| && d.pos <= |d.history|
    requires if redo then d.pos < p < q else q < p < d.pos
    ensures Moved(o, d, p, redo).history == d.history && Moved(o, d, p, redo).pos == p
    ensures Moved(o, Moved(o, d, p, redo), q, redo) == Moved(o, d, q, redo)
  {
    hide TextAt, StateAt;
  }

  lemma MovedConsistent(o: Origin, d: Doc, q: nat, redo: bool, savedText: bytes, issued: nat)
    requires Consistent(o, d, savedText, issued)
    requires q <= |d.history| && if redo then d.pos <= q else q <= d.pos
    ensures Consistent(o, Moved(o, d, q, redo), savedText, issued)
  {
    hide TextAt, StateAt, HistoryOk, SavedOk;
  }

  lemma MovedAligned(o: Origin, d: Doc, q: nat, redo: bool)
    requires q <= |d.history| && Aligned(o, d) && if redo then d.pos <= q else q <= d.pos
    ensures Aligned(o, Moved(o, d, q, redo))
  {
    hide TextAt;
    if q != d.pos {
      assert CursorOk(o, d.history, if redo then q - 1 else q);
    }
  }

  /** The target of undo lies on the side undo moves to. */
  lemma {:induction false} TargetSide(h: seq<Edit>, pos: nat, redo: bool, n: nat)
    requires pos <= |h|
    ensures var q := Target(h, pos, redo, n).1; if redo then pos <= q else q <= pos
    decreases n
  {
    if n > 0 {
      if redo && pos < |h| { TargetSide(h, GroupEnd(h, pos), redo, n - 1); }
      if !redo && pos > 0 { TargetSide(h, GroupStart(h, pos), redo, n - 1); }
    }
  }

  /** What undo or redo by n groups does. */
  function Undone(o: Origin, d: Doc, redo: bool, n: nat): (r: (bool, Doc))
    requires d.pos <= |d.history|
  {
    TargetSide(d.history, d.pos, redo, n);
    var (ok, q) := Target(d.history, d.pos, redo, n);
    var m := Moved(o, d, q, redo);
    (ok, if ok then m.(markActive := false) else m)
  }

  /** Undo and redo that find too few groups go as far as there are any, and
      leave the region as it was. */
  lemma UndoneShort(o: Origin, d: Doc, redo: bool, n: nat)
    requires d.pos <= |d.history| && !Undone(o, d, redo, n).0
    ensures var r := Undone(o, d, redo, n).1;
            r.pos == (if redo then |d.history| else 0) && r.markActive == d.markActive
  {
    hide TextAt, StateAt;
    TargetShort(d.history, d.pos, redo, n);
    TargetSide(d.history, d.pos, redo, n);
    MovedFields(o, d, Target(d.history, d.pos, redo, n).1, redo);
  }

  lemma {:induction false} TargetShort(h: seq<Edit>, pos: nat, redo: bool, n: nat)
    requires pos <= |h| && !Target(h, pos, redo, n).0
    ensures Target(h, pos, redo, n).1 == if redo then |h| else 0
    decreases n
  {
    if CanMove(h, pos, redo) { TargetShort(h, GroupEdge(h, pos, redo), redo, n - 1); }
  }

  lemma UndoneOk(o: Origin, d: Doc, redo: bool, n: nat, savedText: bytes, issued: nat)
    requires DocOk(o, d, savedText, issued)
    ensures DocOk(o, Undone(o, d, redo, n).1, savedText, issued)
    ensures Aligned(o, d) ==> Aligned(o, Undone(o, d, redo, n).1)
  {
    hide TextAt, StateAt, HistoryOk, SavedOk, CursorsOk;
    TargetSide(d.history, d.pos, redo, n);
    var q := Target(d.history, d.pos, redo, n).1;
    MovedConsistent(o, d, q, redo, savedText, issued);
    if Aligned(o, d) { MovedAligned(o, d, q, redo); }
  }

  /** undo(n) and then redo(n), or redo(n) and then undo(n), restore the text,
      the state id, the history and the position in it. */
  lemma UndoThenRedo(o: Origin, d: Doc, redo: bool, n: nat, savedText: bytes, issued: nat)
    requires DocOk(o, d, savedText, issued) && Undone(o, d, redo, n).0
    ensures var back := Undone(o, Undone(o, d, redo, n).1, !redo, n);
            && back.0
            && back.1.text == d.text && back.1.state == d.state
            && back.1.history == d.history && back.1.pos == d.pos
  {
    hide TextAt, StateAt, HistoryOk, SavedOk, Target;
    var e := Undone(o, d, redo, n).1;
    UndoneOk(o, d, redo, n, savedText, issued);
    UndoneOk(o, e, !redo, n, savedText, issued);
    UndoRedoInverse(d.history, d.pos, redo, n);
  }

  // ---- One group of edits, undone and redone ----------------------------------------

  /** The cursors are put somewhere and then a replacement is made. */
  datatype Act = Act(point: nat, mark: nat, at: nat, n: nat, s: bytes)

  /** The replacement is accepted and changes something. */
  predicate Effective(d: Doc, a: Act) {
    Accepts(d.text, a.at, a.n, a.s) && !(a.n == 0 && a.s == [])
  }

  function Acted(d: Doc, a: Act, group: nat, stamp: nat): Doc
    requires d.pos <= |d.history| && Effective(d, a)
  {
    Edited(d.(point := a.point, mark := a.mark), a.at, a.n, a.s, group, stamp)
  }

  /** Edits made one after another in one group; stamps are their state ids. */
  predicate AllEffective(d: Doc, acts: seq<Act>, group: nat, stamps: seq<nat>)
    requires d.pos <= |d.history| && |stamps| == |acts|
    decreases |acts|
  {
    acts == [] ||
    (Effective(d, acts[0]) && AllEffective(Acted(d, acts[0], group, stamps[0]), acts[1..], group, stamps[1..]))
  }

  function ActedAll(d: Doc, acts: seq<Act>, group: nat, stamps: seq<nat>): Doc
    requires d.pos <= |d.history| && |stamps| == |acts| && AllEffective(d, acts, group, stamps)
    decreases |acts|
  {
    if acts == [] then d
    else ActedAll(Acted(d, acts[0], group, stamps[0]), acts[1..], group, stamps[1..])
  }

  /** State ids handed out in order. */
  predicate Fresh(stamps: seq<nat>, issued: nat) {
    stamps == [] || (stamps[0] > issued && Fresh(stamps[1..], stamps[0]))
  }

  /** The history of e is that of d up to d's position and then count records
      of one group, the first with these cursors before it, the last with the
      cursors of e after it. */
  predicate Recorded(d: Doc, e: Doc, count: nat, group: nat, point: nat, mark: nat) {
    && count > 0 && d.pos <= |d.history| && e.pos == |e.history| == d.pos + count
    && e.savedState == d.savedState
    && e.history[..d.pos] == d.history[..d.pos]
    && (forall i :: d.pos <= i < e.pos ==> e.history[i].group == group)
    && e.history[d.pos].beforePoint == point && e.history[d.pos].beforeMark == mark
    && e.history[e.pos - 1].afterPoint == e.point && e.history[e.pos - 1].afterMark == e.mark
  }

  lemma ActRecorded(d: Doc, a: Act, group: nat, stamp: nat)
    requires d.pos <= |d.history| && Effective(d, a)
    ensures Recorded(d, Acted(d, a, group, stamp), 1, group, a.point, a.mark)
  {
    hide Accepts, Valid;
  }

  lemma RecordedOn(d: Doc, b: Doc, e: Doc, m: nat, n: nat, group: nat, p: nat, q: nat, x: nat, y: nat)
    requires Recorded(d, b, m, group, p, q) && Recorded(b, e, n, group, x, y)
    ensures Recorded(d, e, m + n, group, p, q)
  {
    forall i | 0 <= i < b.pos
      ensures e.history[i] == b.history[i]
    {
      assert e.history[i] == e.history[..b.pos][i] == b.history[..b.pos][i];
    }
    assert e.history[..d.pos] == b.history[..d.pos];
  }

  lemma {:induction false} ActsRecorded(o: Origin, d: Doc, acts: seq<Act>, group: nat, stamps: seq<nat>,
      savedText: bytes, issued: nat)
    requires DocOk(o, d, savedText, issued) && |stamps| == |acts| && Fresh(stamps, issued)
    requires AllEffective(d, acts, group, stamps) && acts != []
    ensures var e := ActedAll(d, acts, group, stamps);
            && Recorded(d, e, |acts|, group, acts[0].point, acts[0].mark)
            && Consistent(o, e, savedText, stamps[|acts| - 1])
    decreases |acts|
  {
    hide TextAt, StateAt, HistoryOk, SavedOk, Accepts, Valid, Recorded, Edited;
    var a := acts[0];
    assert DocOk(o, d.(point := a.point, mark := a.mark), savedText, issued);
    EditedOk(o, d.(point := a.point, mark := a.mark), a.at, a.n, a.s, group, stamps[0], savedText, issued);
    ActRecorded(d, a, group, stamps[0]);
    var b := Acted(d, a, group, stamps[0]);
    if |acts| == 1 {
      assert ActedAll(b, acts[1..], group, stamps[1..]) == b;
    } else {
      ActsRecorded(o, b, acts[1..], group, stamps[1..], savedText, stamps[0]);
      var e := ActedAll(b, acts[1..], group, stamps[1..]);
      RecordedOn(d, b, e, 1, |acts| - 1, group, a.point, a.mark, acts[1].point, acts[1].mark);
    }
  }

  /** Edits made in a group of their own, with the cursors put anywhere before
      each: one undo gives back the text, the state id and the cursors of the
      moment before the first, one redo those of the moment after the last. */
  lemma GroupUndone(o: Origin, d: Doc, acts: seq<Act>, group: nat, stamps: seq<nat>, savedText: bytes, issued: nat)
    requires DocOk(o, d, savedText, issued) && |stamps| == |acts| && Fresh(stamps, issued)
    requires AllEffective(d, acts, group, stamps) && acts != []
    requires d.pos > 0 ==> d.history[d.pos - 1].group != group
    ensures var e := ActedAll(d, acts, group, stamps);
            && e.pos <= |e.history|
            && var (ok, u) := Undone(o, e, false, 1);
            && ok && u.text == d.text && u.state == d.state && u.pos == d.pos && u.pos <= |u.history|
            && u.point == acts[0].point && u.mark == acts[0].mark && !u.markActive
            && u.savedState == d.savedState && u.revision == e.revision + |acts|
            && var (again, r) := Undone(o, u, true, 1);
            && again && r.text == e.text && r.state == e.state && r.pos == e.pos && r.history == e.history
            && r.point == e.point && r.mark == e.mark && !r.markActive
  {
    hide TextAt, StateAt, HistoryOk, SavedOk, Valid, ActedAll, AllEffective, Fresh;
    ActsRecorded(o, d, acts, group, stamps, savedText, issued);
    var e := ActedAll(d, acts, group, stamps);
    var h := e.history;
    if d.pos > 0 { assert h[d.pos - 1] == h[..d.pos][d.pos - 1] == d.history[d.pos - 1]; }
    assert OneGroup(h, d.pos, e.pos) && AtGroupEdge(h, d.pos);
    StartUnique(h, GroupStart(h, e.pos), d.pos, e.pos);
    EndUnique(h, d.pos, e.pos, GroupEnd(h, d.pos));
    OneStep(h, e.pos, false);
    OneStep(h, d.pos, true);
    TextAtPrefix(o, d.history, h, d.pos);
  }

  lemma OneStep(h: seq<Edit>, pos: nat, redo: bool)
    requires pos <= |h| && CanMove(h, pos, redo)
    ensures Target(h, pos, redo, 1) == (true, GroupEdge(h, pos, redo))
  {
    TargetStep(h, pos, redo, 1);
    TargetHere(h, GroupEdge(h, pos, redo), redo);
  }

  /** The same for a single edit. */
  lemma EditUndone(o: Origin, d: Doc, at: nat, n: nat, s: bytes, group: nat, stamp: nat, savedText: bytes,
      issued: nat)
    requires DocOk(o, d, savedText, issued) && Accepts(d.text, at, n, s) && !(n == 0 && s == []) && stamp > issued
    requires d.pos > 0 ==> d.history[d.pos - 1].group != group
    ensures var e := Edited(d, at, n, s, group, stamp);
            && e.pos <= |e.history|
            && var (ok, u) := Undone(o, e, false, 1);
            && ok && u.text == d.text && u.state == d.state && u.pos <= |u.history|
            && u.point == d.point && u.mark == d.mark
            && var (again, r) := Undone(o, u, true, 1);
            && again && r.text == e.text && r.state == e.state && r.point == e.point && r.mark == e.mark
  {
    hide TextAt, StateAt, HistoryOk, SavedOk, Valid, Undone;
    var a := Act(d.point, d.mark, at, n, s);
    assert d.(point := a.point, mark := a.mark) == d;
    var e := Edited(d, at, n, s, group, stamp);
    assert [stamp][1..] == [] && [a][1..] == [];
    assert AllEffective(e, [a][1..], group, [stamp][1..]);
    assert AllEffective(d, [a], group, [stamp]);
    assert ActedAll(e, [a][1..], group, [stamp][1..]) == e;
    GroupUndone(o, d, [a], group, [stamp], savedText, issued);
  }

  // ---- Runs -------------------------------------------------------------------------

  /** The steps that change a buffer's document. */
  datatype Step =
    | DoReplace(at: nat, n: nat, s: bytes, group: nat, skipped: nat)
    | DoUndo(redo: bool, count: nat)
    | DoSave
    | DoCursor(point: nat, mark: nat)
    | DoLog(s: bytes, skipped: nat)
    | DoReadonly(on: bool)

  /** A run's state: where the history starts, the document, the text of the
      last save, the last id. */
  datatype Session = Session(origin: Origin, doc: Doc, savedText: bytes, issued: nat)

  /** A diagnostic buffer after it was given a whole new text. */
  function Logged(d: Doc, s: bytes, stamp: nat): Doc {
    Doc(s, 0, 0, false, false, d.goalValid, true, d.revision + 1, stamp, stamp, [], 0)
  }

  /** One step; a rejected replacement or log text changes nothing. Other
      buffers may take `skipped` state ids in between. */
  function Next(w: Session, step: Step): Session
    requires w.doc.pos <= |w.doc.history|
  {
    match step
    case DoReplace(at, n, s, group, skipped) =>
      if w.doc.readonly || !Accepts(w.doc.text, at, n, s) then w
      else
        var stamp := w.issued + skipped + 1;
        Session(w.origin, Edited(w.doc, at, n, s, group, stamp), w.savedText, Issued(w.issued, n, s, stamp))
    case DoUndo(redo, count) =>
      if w.doc.readonly then w else w.(doc := Undone(w.origin, w.doc, redo, count).1)
    case DoSave =>
      w.(doc := w.doc.(savedState := w.doc.state), savedText := w.doc.text)
    case DoCursor(point, mark) =>
      w.(doc := w.doc.(point := point, mark := mark))
    case DoLog(s, skipped) =>
      var stamp := w.issued + skipped + 1;
      if Valid(s) then Session(Origin(s, stamp), Logged(w.doc, s, stamp), s, stamp) else w
    case DoReadonly(on) =>
      w.(doc := w.doc.(readonly := on))
  }

  /** What each step does to the text, the saved text and the cursors. */
  lemma NextDoes(w: Session, step: Step)
    requires w.doc.pos <= |w.doc.history|
    ensures var d, v := w.doc, Next(w, step);
            match step
            case DoReplace(at, n, s, _, _) =>
              if d.readonly || !Accepts(d.text, at, n, s) then v == w
              else v.doc.text == d.text[..at] + s + d.text[at + n..] && v.savedText == w.savedText
            case DoUndo(redo, _) =>
              && v.savedText == w.savedText && v.doc.savedState == d.savedState
              && v.doc.pos <= |v.doc.history| && v.doc.history == d.history
              && (d.readonly ==> v == w) && (if redo then d.pos <= v.doc.pos else v.doc.pos <= d.pos)
            case DoSave => v.savedText == v.doc.text == d.text && v.doc.state == v.doc.savedState == d.state
            case DoCursor(p, q) => v == w.(doc := d.(point := p, mark := q))
            case DoLog(s, _) => if Valid(s) then v.doc.text == v.savedText == s else v == w
            case DoReadonly(on) => v == w.(doc := d.(readonly := on))
  {
    hide TextAt, StateAt, Accepts, Valid;
    match step
    case DoReplace(at, n, s, _, _) =>
      if Accepts(w.doc.text, at, n, s) { InRange(w.doc.text, at, n, s); }
    case DoUndo(redo, n) =>
      TargetSide(w.doc.history, w.doc.pos, redo, n);
      MovedFields(w.origin, w.doc, Target(w.doc.history, w.doc.pos, redo, n).1, redo);
    case _ =>
  }

  lemma InRange(t: bytes, at: nat, n: nat, s: bytes)
    requires Accepts(t, at, n, s)
    ensures at + n <= |t| && (n == 0 && s == [] ==> t == t[..at] + s + t[at + n..])
  {
  }

  predicate SessionOk(w: Session) {
    DocOk(w.origin, w.doc, w.savedText, w.issued)
  }

  lemma NextOk(w: Session, step: Step)
    requires SessionOk(w)
    ensures SessionOk(Next(w, step))
  {
    hide TextAt, StateAt, HistoryOk, SavedOk, AtGroupEdge, Valid;
    match step
    case DoReplace(at, n, s, group, skipped) =>
      if !w.doc.readonly && Accepts(w.doc.text, at, n, s) {
        EditedOk(w.origin, w.doc, at, n, s, group, w.issued + skipped + 1, w.savedText, w.issued);
      }
    case DoUndo(redo, count) =>
      UndoneOk(w.origin, w.doc, redo, count, w.savedText, w.issued);
    case DoSave =>
      SaveSaved(w.origin, w.doc.history, w.doc.pos, w.doc.savedState, w.savedText, w.issued);
    case DoCursor(_, _) =>
    case DoLog(s, skipped) =>
      if Valid(s) { LoggedOk(w.doc, s, w.issued + skipped + 1); }
    case DoReadonly(_) =>
  }

  lemma LoggedOk(d: Doc, s: bytes, stamp: nat)
    requires Valid(s)
    ensures DocOk(Origin(s, stamp), Logged(d, s, stamp), s, stamp)
    ensures var e := Logged(d, s, stamp);
            && e.text == s && e.readonly && e.state == e.savedState && e.point == e.mark == 0 && !e.hasMark
            && !Undone(Origin(s, stamp), e, false, 1).0 && !Undone(Origin(s, stamp), e, true, 1).0
  {
  }

  function Run(w: Session, steps: seq<Step>): Session
    requires SessionOk(w)
    decreases |steps|
  {
    if steps == [] then w
    else
      NextOk(w, steps[0]);
      Run(Next(w, steps[0]), steps[1..])
  }

  function Opened(text: bytes, state: nat): Session {
    Session(Origin(text, state), Doc(text, 0, 0, false, false, false, false, 0, state, state, [], 0), text, state)
  }

  /** After any run of edits, undos, redos, saves, cursor moves, log resets and
      changes of the read-only flag: replaying the history up to its position gives the text and the state id,
      the position is not inside a group, and an unmodified buffer shows
      exactly the text of the last save. */
  lemma {:induction false} RunSound(w: Session, steps: seq<Step>)
    requires SessionOk(w)
    ensures var v := Run(w, steps);
            && v.doc.pos <= |v.doc.history| && AtGroupEdge(v.doc.history, v.doc.pos)
            && v.doc.text == TextAt(v.origin, v.doc.history, v.doc.pos)
            && v.doc.state == StateAt(v.origin, v.doc.history, v.doc.pos)
            && (v.doc.state == v.doc.savedState ==> v.doc.text == v.savedText)
    decreases |steps|
  {
    hide TextAt, StateAt, HistoryOk, AtGroupEdge;
    if steps == [] {
      if w.doc.state == w.doc.savedState { CleanMeansSaved(w.origin, w.doc, w.savedText, w.issued); }
    } else {
      NextOk(w, steps[0]);
      RunSound(Next(w, steps[0]), steps[1..]);
    }
  }

  /** The step neither clears the read-only flag nor replaces a log's text. */
  predicate Leaves(step: Step) {
    !step.DoLog? && !step.DoReadonly?
  }

  /** Over any run that leaves it read-only, a buffer's text and history stay. */
  lemma {:induction false} ReadonlyKeeps(w: Session, steps: seq<Step>)
    requires SessionOk(w) && w.doc.readonly && forall i :: 0 <= i < |steps| ==> Leaves(steps[i])
    ensures var v := Run(w, steps);
            && v.doc.readonly && v.doc.text == w.doc.text && v.doc.state == w.doc.state
            && v.doc.history == w.doc.history && v.doc.pos == w.doc.pos
    decreases |steps|
  {
    hide TextAt, StateAt, HistoryOk, SavedOk, AtGroupEdge, Valid;
    if steps != [] {
      assert Leaves(steps[0]);
      NextOk(w, steps[0]);
      ReadonlyKeeps(Next(w, steps[0]), steps[1..]);
    }
  }

  /** Commands that move point and mark put them on boundaries. */
  predicate Careful(w: Session, step: Step) {
    step.DoCursor? ==> IsBoundary(w.doc.text, step.point) && IsBoundary(w.doc.text, step.mark)
  }

  predicate AllCareful(w: Session, steps: seq<Step>)
    requires SessionOk(w)
    decreases |steps|
  {
    steps == [] || (Careful(w, steps[0]) && (NextOk(w, steps[0]); AllCareful(Next(w, steps[0]), steps[1..])))
  }

  lemma NextAligned(w: Session, step: Step)
    requires SessionOk(w) && Aligned(w.origin, w.doc) && Careful(w, step)
    ensures Aligned(Next(w, step).origin, Next(w, step).doc)
  {
    hide TextAt, StateAt, HistoryOk, SavedOk, AtGroupEdge, Valid;
    match step
    case DoReplace(at, n, s, group, skipped) =>
      if !w.doc.readonly && Accepts(w.doc.text, at, n, s) {
        EditedAligned(w.origin, w.doc, at, n, s, group, w.issued + skipped + 1, w.savedText, w.issued);
      }
    case DoUndo(redo, count) =>
      UndoneOk(w.origin, w.doc, redo, count, w.savedText, w.issued);
    case DoSave =>
    case DoCursor(_, _) =>
    case DoLog(s, skipped) =>
      if Valid(s) && s != [] { ValidHead(s); }
    case DoReadonly(_) =>
  }

  /** Point and mark stay on code-point boundaries throughout such a run. */
  lemma {:induction false} RunAligned(w: Session, steps: seq<Step>)
    requires SessionOk(w) && Aligned(w.origin, w.doc) && AllCareful(w, steps)
    ensures var v := Run(w, steps); Aligned(v.origin, v.doc)
    decreases |steps|
  {
    hide Aligned, Careful, Next, TextAt, StateAt, HistoryOk, SavedOk, AtGroupEdge;
    if steps != [] {
      NextOk(w, steps[0]);
      NextAligned(w, steps[0]);
      RunAligned(Next(w, steps[0]), steps[1..]);
    }
  }

  lemma OpenedOk(text: bytes, state: nat)
    requires Valid(text)
    ensures SessionOk(Opened(text, state))
  {
  }

  // ---- Caches -------------------------------------------------------------------------

  /** editor_lex_invalidate on all three caches. */
  function Invalidate(k: Caches, c: bytes, at: nat): Caches {
    k.(valid := Invalidated(c, k.valid, at), column := Checked(k.column, at), seek := Checked(k.seek, at))
  }

  /** After invalidation from the edited offset on, every cached entry is still
      what a computation from scratch on the new text would give. */
  lemma InvalidateKeeps(wc: nat -> int, k: Caches, c: bytes, at: nat, n: nat, s: bytes)
    requires CachesOk(wc, k, c) && Valid(c) && Accepts(c, at, n, s)
    ensures CachesOk(wc, Invalidate(k, c, at), Splice(c, at, n, s))
  {
    hide Valid, LexCacheOk, CacheOk;
    var d := Splice(c, at, n, s);
    assert d[..at] == c[..at];
    BoundaryAfterSplice(c, at, n, s, at);
    InvalidateSound(k.syntax, c, d, at, k.states, k.valid);
    CheckedSound(wc, k.tab, c, d, at, k.column);
    CheckedSound(wc, k.tab, c, d, at, k.seek);
  }
}
