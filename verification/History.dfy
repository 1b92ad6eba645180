/** The edit history of a buffer: inverse records, groups, state ids. */
module History {
  import opened Bytes
  import opened Utf8

  datatype Edit = Edit(
    at: nat, removed: bytes, added: bytes,
    beforePoint: nat, afterPoint: nat, beforeMark: nat, afterMark: nat,
    group: nat, beforeState: nat, afterState: nat)

  /** Text and state id of the buffer before its first recorded edit. */
  datatype Origin = Origin(text: bytes, state: nat)

  /** relocate: where an offset lands when at .. at+removed becomes `added` bytes. */
  function Relocate(point: nat, at: nat, removed: nat, added: nat, right: bool): nat {
    if point < at || (point == at && !right) then point
    else if point <= at + removed then at + added
    else point - removed + added
  }

  lemma RelocateKeepsBoundary(s: bytes, at: nat, n: nat, t: bytes, p: nat, right: bool)
    requires Valid(s) && Valid(t) && IsBoundary(s, at) && at + n <= |s| && IsBoundary(s, at + n)
    requires IsBoundary(s, p)
    ensures IsBoundary(Splice(s, at, n, t), Relocate(p, at, n, |t|, right))
  {
    hide Valid;
    BoundaryAfterSplice(s, at, n, t, p);
  }

  /** A cursor is carried along with the text on its own side of an edit. */
  lemma RelocateTracks(s: bytes, at: nat, n: nat, t: bytes, p: nat, right: bool)
    requires at + n <= |s| && p <= |s|
    ensures var r, q := Splice(s, at, n, t), Relocate(p, at, n, |t|, right);
            && q <= |r|
            && (p < at || (p == at && !right) ==> q == p && r[..q] == s[..p])
            && ((at < p || (p == at && right)) && p <= at + n ==> r[..q] == s[..at] + t)
            && (at + n < p || (p == at + n && (n > 0 || right)) ==> r[q..] == s[p..])
  {
    var r, q := Splice(s, at, n, t), Relocate(p, at, n, |t|, right);
    if at + n <= p && (n > 0 || right || at + n < p) {
      assert q == p - n + |t|;
      assert r[q..] == s[p..];
    }
  }

  /** What editor_replace checks before it edits. */
  predicate Accepts(text: bytes, at: nat, n: nat, s: bytes) {
    at + n <= |text| && IsBoundary(text, at) && IsBoundary(text, at + n) && Valid(s)
  }

  // ---- Replaying -------------------------------------------------------------

  /** The record was made by a legal edit of this text. */
  predicate Applies(text: bytes, e: Edit) {
    && Accepts(text, e.at, |e.removed|, e.added)
    && text[e.at..e.at + |e.removed|] == e.removed
  }

  function Apply(text: bytes, e: Edit): bytes {
    if e.at + |e.removed| <= |text| then Splice(text, e.at, |e.removed|, e.added) else text
  }

  /** The text after the first i records. */
  function TextAt(o: Origin, h: seq<Edit>, i: nat): bytes
    requires i <= |h|
  {
    if i == 0 then o.text else Apply(TextAt(o, h, i - 1), h[i - 1])
  }

  function StateAt(o: Origin, h: seq<Edit>, i: nat): nat
    requires i <= |h|
  {
    if i == 0 then o.state else h[i - 1].afterState
  }

  predicate RecordOk(o: Origin, h: seq<Edit>, i: nat)
    requires i < |h|
  {
    && Applies(TextAt(o, h, i), h[i])
    && h[i].beforeState == StateAt(o, h, i) < h[i].afterState
  }

  /** Every record is a legal edit of the text the earlier ones lead to. */
  predicate HistoryOk(o: Origin, h: seq<Edit>) {
    Valid(o.text) && forall i :: 0 <= i < |h| ==> RecordOk(o, h, i)
  }

  lemma {:induction false} TextAtValid(o: Origin, h: seq<Edit>, i: nat)
    requires HistoryOk(o, h) && i <= |h|
    ensures Valid(TextAt(o, h, i))
  {
    hide Valid;
    if i > 0 {
      TextAtValid(o, h, i - 1);
      assert RecordOk(o, h, i - 1);
      var t, e := TextAt(o, h, i - 1), h[i - 1];
      ValidSplice(t, e.at, |e.removed|, e.added);
    }
  }

  /** Replaying depends on the replayed records only. */
  lemma {:induction false} TextAtPrefix(o: Origin, h: seq<Edit>, k: seq<Edit>, i: nat)
    requires i <= |h| && i <= |k| && h[..i] == k[..i]
    ensures TextAt(o, h, i) == TextAt(o, k, i) && StateAt(o, h, i) == StateAt(o, k, i)
  {
    if i > 0 {
      assert h[..i - 1] == h[..i][..i - 1] && k[..i - 1] == k[..i][..i - 1];
      assert h[i - 1] == h[..i][i - 1] && k[i - 1] == k[..i][i - 1];
      TextAtPrefix(o, h, k, i - 1);
    }
  }

  /** A record applied and then reverted gives back the text, and the
      deletions and insertions on the way are all legal. */
  lemma RevertApplies(text: bytes, e: Edit)
    requires Valid(text) && Applies(text, e)
    ensures var t := Apply(text, e);
            && Accepts(t, e.at, |e.added|, e.removed)
            && Splice(t, e.at, |e.added|, e.removed) == text
  {
    hide Valid;
    var t := Apply(text, e);
    var z := e.at + |e.removed|;
    ValidSlice(text, e.at, z);
    BoundaryAfterSplice(text, e.at, |e.removed|, e.added, e.at);
    SpliceBack(text, e.at, |e.removed|, e.added);
  }

  lemma SpliceBack(s: bytes, at: nat, n: nat, t: bytes)
    requires at + n <= |s|
    ensures Splice(Splice(s, at, n, t), at, |t|, s[at..at + n]) == s
  {
    var r := Splice(s, at, n, t);
    assert r[..at] == s[..at];
    assert r[at + |t|..] == s[at + n..];
  }

  // ---- A new edit --------------------------------------------------------------

  /** The history after a new edit at position pos: the redo tail is dropped. */
  function Push(h: seq<Edit>, pos: nat, e: Edit): seq<Edit>
    requires pos <= |h|
  {
    h[..pos] + [e]
  }

  lemma PushKeeps(o: Origin, h: seq<Edit>, pos: nat, e: Edit)
    requires HistoryOk(o, h) && pos <= |h|
    requires Applies(TextAt(o, h, pos), e) && e.beforeState == StateAt(o, h, pos) < e.afterState
    ensures var k := Push(h, pos, e);
            && HistoryOk(o, k)
            && (forall i :: 0 <= i <= pos ==>
               TextAt(o, k, i) == TextAt(o, h, i) && StateAt(o, k, i) == StateAt(o, h, i))
            && TextAt(o, k, pos + 1) == Apply(TextAt(o, h, pos), e)
            && StateAt(o, k, pos + 1) == e.afterState
  {
    hide Applies, Valid, Apply;
    var k := Push(h, pos, e);
    forall i | 0 <= i <= pos
      ensures TextAt(o, k, i) == TextAt(o, h, i) && StateAt(o, k, i) == StateAt(o, h, i)
    {
      assert k[..i] == h[..i];
      TextAtPrefix(o, h, k, i);
    }
    forall i | 0 <= i < |k|
      ensures RecordOk(o, k, i)
    {
      if i < pos { assert RecordOk(o, h, i); }
    }
  }

  // ---- Groups --------------------------------------------------------------------

  /** pos does not lie strictly inside a group. */
  predicate AtGroupEdge(h: seq<Edit>, pos: nat) {
    pos <= |h| && (0 < pos < |h| ==> h[pos - 1].group != h[pos].group)
  }

  predicate OneGroup(h: seq<Edit>, a: nat, z: nat) {
    a < z <= |h| && forall i :: a <= i < z ==> h[i].group == h[a].group
  }

  /** Start of the group that ends at pos. */
  function GroupStart(h: seq<Edit>, pos: nat): (r: nat)
    requires 0 < pos <= |h|
    ensures r < pos && OneGroup(h, r, pos) && (r == 0 || h[r - 1].group != h[r].group)
  {
    if pos > 1 && h[pos - 2].group == h[pos - 1].group then GroupStart(h, pos - 1) else pos - 1
  }

  /** End of the group that starts at pos. */
  function GroupEnd(h: seq<Edit>, pos: nat): (r: nat)
    requires pos < |h|
    ensures OneGroup(h, pos, r) && (r == |h| || h[r - 1].group != h[r].group)
    decreases |h| - pos
  {
    if pos + 1 < |h| && h[pos + 1].group == h[pos].group then GroupEnd(h, pos + 1) else pos + 1
  }

  /** The other edge of the group on the side that undo or redo moves to. */
  function GroupEdge(h: seq<Edit>, pos: nat, redo: bool): nat
    requires pos <= |h| && if redo then pos < |h| else pos > 0
  {
    if redo then GroupEnd(h, pos) else GroupStart(h, pos)
  }

  /** Where n undos or redos lead, and whether all n could be done. */
  function Target(h: seq<Edit>, pos: nat, redo: bool, n: nat): (r: (bool, nat))
    requires pos <= |h|
    ensures r.1 <= |h|
    ensures AtGroupEdge(h, pos) ==> AtGroupEdge(h, r.1)
    decreases n
  {
    if n == 0 then (true, pos)
    else if redo then
      if pos == |h| then (false, pos) else Target(h, GroupEnd(h, pos), redo, n - 1)
    else
      if pos == 0 then (false, pos) else Target(h, GroupStart(h, pos), redo, n - 1)
  }

  /** There is something to undo, or redo. */
  predicate CanMove(h: seq<Edit>, pos: nat, redo: bool) {
    if redo then pos < |h| else pos > 0
  }

  lemma TargetStep(h: seq<Edit>, pos: nat, redo: bool, n: nat)
    requires pos <= |h| && n > 0
    ensures !CanMove(h, pos, redo) ==> Target(h, pos, redo, n) == (false, pos)
    ensures CanMove(h, pos, redo) ==> GroupEdge(h, pos, redo) <= |h|
    ensures CanMove(h, pos, redo) ==> Target(h, pos, redo, n) == Target(h, GroupEdge(h, pos, redo), redo, n - 1)
  {
  }

  lemma TargetHere(h: seq<Edit>, pos: nat, redo: bool)
    requires pos <= |h|
    ensures Target(h, pos, redo, 0) == (true, pos)
  {
  }

  lemma GroupRoundTrip(h: seq<Edit>, pos: nat)
    requires AtGroupEdge(h, pos)
    ensures pos > 0 ==> GroupEnd(h, GroupStart(h, pos)) == pos
    ensures pos < |h| ==> GroupStart(h, GroupEnd(h, pos)) == pos
  {
    if pos > 0 {
      EndUnique(h, GroupStart(h, pos), pos, GroupEnd(h, GroupStart(h, pos)));
    }
    if pos < |h| {
      StartUnique(h, pos, GroupStart(h, GroupEnd(h, pos)), GroupEnd(h, pos));
    }
  }

  lemma EndUnique(h: seq<Edit>, a: nat, z: nat, w: nat)
    requires OneGroup(h, a, z) && AtGroupEdge(h, z)
    requires OneGroup(h, a, w) && AtGroupEdge(h, w)
    ensures z == w
  {
  }

  lemma StartUnique(h: seq<Edit>, a: nat, b: nat, z: nat)
    requires OneGroup(h, a, z) && AtGroupEdge(h, a)
    requires OneGroup(h, b, z) && AtGroupEdge(h, b)
    ensures a == b
  {
  }

  /** n undos that all succeed are undone by n redos, and the other way round. */
  lemma {:induction false} UndoRedoInverse(h: seq<Edit>, pos: nat, redo: bool, n: nat)
    requires AtGroupEdge(h, pos) && Target(h, pos, redo, n).0
    ensures Target(h, Target(h, pos, redo, n).1, !redo, n) == (true, pos)
    decreases n
  {
    if n > 0 {
      GroupRoundTrip(h, pos);
      var q := if redo then GroupEnd(h, pos) else GroupStart(h, pos);
      UndoRedoInverse(h, q, redo, n - 1);
      TargetLast(h, Target(h, pos, redo, n).1, !redo, n - 1);
    }
  }

  /** The last of n + 1 steps, split off. */
  lemma {:induction false} TargetLast(h: seq<Edit>, pos: nat, redo: bool, n: nat)
    requires pos <= |h| && Target(h, pos, redo, n).0
    ensures Target(h, pos, redo, n + 1) == Target(h, Target(h, pos, redo, n).1, redo, 1)
    decreases n
  {
    if n > 0 {
      TargetLast(h, if redo then GroupEnd(h, pos) else GroupStart(h, pos), redo, n - 1);
    }
  }

  // ---- Cursors ---------------------------------------------------------------------

  /** Every recorded point and mark is a code-point boundary of its text. */
  predicate CursorsOk(o: Origin, h: seq<Edit>) {
    forall i :: 0 <= i < |h| ==> CursorOk(o, h, i)
  }

  predicate CursorOk(o: Origin, h: seq<Edit>, i: nat)
    requires i < |h|
  {
    && IsBoundary(TextAt(o, h, i), h[i].beforePoint) && IsBoundary(TextAt(o, h, i), h[i].beforeMark)
    && IsBoundary(TextAt(o, h, i + 1), h[i].afterPoint) && IsBoundary(TextAt(o, h, i + 1), h[i].afterMark)
  }

  lemma PushCursors(o: Origin, h: seq<Edit>, pos: nat, e: Edit)
    requires HistoryOk(o, h) && pos <= |h| && CursorsOk(o, h)
    requires Applies(TextAt(o, h, pos), e) && e.beforeState == StateAt(o, h, pos) < e.afterState
    requires IsBoundary(TextAt(o, h, pos), e.beforePoint) && IsBoundary(TextAt(o, h, pos), e.beforeMark)
    requires e.afterPoint == Relocate(e.beforePoint, e.at, |e.removed|, |e.added|, true)
    requires e.afterMark == Relocate(e.beforeMark, e.at, |e.removed|, |e.added|, false)
    ensures CursorsOk(o, Push(h, pos, e))
    ensures IsBoundary(Apply(TextAt(o, h, pos), e), e.afterPoint)
            && IsBoundary(Apply(TextAt(o, h, pos), e), e.afterMark)
  {
    hide Valid;
    var k, t := Push(h, pos, e), TextAt(o, h, pos);
    PushKeeps(o, h, pos, e);
    TextAtValid(o, h, pos);
    RelocateKeepsBoundary(t, e.at, |e.removed|, e.added, e.beforePoint, true);
    RelocateKeepsBoundary(t, e.at, |e.removed|, e.added, e.beforeMark, false);
    forall i | 0 <= i < |k|
      ensures CursorOk(o, k, i)
    {
      if i < pos {
        assert CursorOk(o, h, i);
        assert TextAt(o, k, i + 1) == TextAt(o, h, i + 1);
      }
    }
  }

  // ---- The clean flag ----------------------------------------------------------------

  lemma {:induction false} StatesIncrease(o: Origin, h: seq<Edit>, i: nat, j: nat)
    requires HistoryOk(o, h) && i < j <= |h|
    ensures StateAt(o, h, i) < StateAt(o, h, j)
  {
    assert RecordOk(o, h, j - 1);
    if i < j - 1 {
      StatesIncrease(o, h, i, j - 1);
    }
  }

  /** Where the history passes through the saved state id, it passes through
      the saved text; no id beyond `issued` was given out. */
  predicate SavedOk(o: Origin, h: seq<Edit>, saved: nat, savedText: bytes, issued: nat) {
    && saved <= issued
    && forall i :: 0 <= i <= |h| ==>
       StateAt(o, h, i) <= issued && (StateAt(o, h, i) == saved ==> TextAt(o, h, i) == savedText)
  }

  lemma PushSaved(o: Origin, h: seq<Edit>, pos: nat, e: Edit, saved: nat, savedText: bytes, issued: nat)
    requires HistoryOk(o, h) && pos <= |h| && SavedOk(o, h, saved, savedText, issued)
    requires Applies(TextAt(o, h, pos), e) && e.beforeState == StateAt(o, h, pos) && e.afterState > issued
    ensures SavedOk(o, Push(h, pos, e), saved, savedText, e.afterState)
  {
    hide Valid, Applies;
    PushKeeps(o, h, pos, e);
    var k := Push(h, pos, e);
    forall i | 0 <= i <= |k|
      ensures StateAt(o, k, i) <= e.afterState && (StateAt(o, k, i) == saved ==> TextAt(o, k, i) == savedText)
    {
      if i <= pos { assert StateAt(o, k, i) == StateAt(o, h, i); }
    }
  }

  lemma SaveSaved(o: Origin, h: seq<Edit>, pos: nat, saved: nat, savedText: bytes, issued: nat)
    requires HistoryOk(o, h) && pos <= |h| && SavedOk(o, h, saved, savedText, issued)
    ensures SavedOk(o, h, StateAt(o, h, pos), TextAt(o, h, pos), issued)
  {
    forall i | 0 <= i <= |h|
      ensures StateAt(o, h, i) == StateAt(o, h, pos) ==> i == pos
    {
      if i < pos { StatesIncrease(o, h, i, pos); }
      if pos < i { StatesIncrease(o, h, pos, i); }
    }
  }
}
