/** The editor's commands on the current buffer: replace, kill, yank and
    query-replace. */
module Editors {
  import opened Bytes
  import opened Utf8
  import opened PieceTree
  import opened History
  import opened Document
  import opened Buffers
  import opened Search
  import Kill
  import Modulo
  import Query

  const KILL := 1
  const YANK := 2

  class Editor {
    var buffer: Buffer
    var group: nat
    var nextState: nat
    var killRing: seq<bytes>
    var yankIndex: nat
    var yankStart: nat
    var yankEnd: nat
    var lastKind: nat
    var replaceFrom: bytes
    var replaceTo: bytes
    var replaceAt: nat
    var asking: bool
    ghost var Repr: set<object>

    ghost predicate Valid()
      reads this, Repr
      ensures Valid() ==> this in Repr
    {
      && buffer in Repr && this !in buffer.Repr && Repr == {this} + buffer.Repr
      && buffer.Valid() && nextState >= buffer.issued
      && |killRing| <= Kill.RING_SIZE
    }

    ghost function D(): Doc
      reads this, buffer, buffer.text, buffer.text.root
    {
      buffer.D()
    }

    ghost function W(): Kill.World
      reads this, buffer, buffer.text, buffer.text.root
    {
      Kill.World(buffer.D(), killRing)
    }

    constructor (b: Buffer, counter: nat)
      requires b.Valid() && counter >= b.issued
      ensures Valid() && buffer == b && killRing == [] && fresh(Repr - b.Repr)
    {
      hide Buffer.Valid, Buffer.D;
      buffer := b;
      group, nextState, killRing := 0, counter, [];
      yankIndex, yankStart, yankEnd, lastKind := 0, 0, 0, 0;
      replaceFrom, replaceTo, replaceAt, asking := [], [], 0, false;
      Repr := {this} + b.Repr;
      new;
    }

    /** editor_replace on the current buffer. */
    method Replace(at: nat, n: nat, s: bytes) returns (ok: bool)
      requires Valid()
      modifies this`nextState, this`Repr, buffer.Repr
      ensures fresh(buffer.Repr - old(buffer.Repr))
      ensures Valid() && fresh(Repr - old(Repr)) && buffer == old(buffer)
      ensures ok == (!old(D()).readonly && Accepts(old(D()).text, at, n, s))
      ensures D() == if ok then Edited(old(D()), at, n, s, group, old(nextState) + 1) else old(D())
      ensures nextState == if ok && !(n == 0 && s == []) then old(nextState) + 1 else old(nextState)
    {
      hide Buffer.Valid, Edited, Accepts;
      var next;
      ok, next := buffer.Replace(at, n, s, group, nextState);
      nextState := next;
      Repr := {this} + buffer.Repr;
    }

    // ---- kill ----------------------------------------------------------------------

    /** push_kill. */
    method PushKill(s: bytes, backwards: bool, append: bool)
      modifies this`killRing, this`yankIndex
      ensures killRing == Kill.PushKill(old(killRing), s, backwards, append) && yankIndex == 0
    {
      if append && |killRing| > 0 {
        killRing := [if backwards then s + killRing[0] else killRing[0] + s] + killRing[1..];
      } else {
        if |killRing| >= Kill.RING_SIZE { killRing := killRing[..Kill.RING_SIZE - 1]; }
        killRing := [s] + killRing;
      }
      yankIndex := 0;
    }

    /** kill_range, for a kill (not a copy) between point and q. */
    method KillTo(q: nat) returns (ok: bool)
      requires Valid()
      modifies Repr
      ensures Valid() && fresh(Repr - old(Repr)) && buffer == old(buffer)
      ensures W() == Kill.KillTo(old(W()), q, old(lastKind) == KILL, group, old(nextState) + 1)
      ensures ok == (old(D()).point == q || Kill.Effective(old(D()), q))
      ensures lastKind == KILL && group == old(group)
      ensures nextState == if Kill.Effective(old(D()), q) then old(nextState) + 1 else old(nextState)
    {
      hide Buffer.Valid, Buffer.D, Accepts, Edited, Splice, Kill.PushKill;
      ghost var d := D();
      var append, p := lastKind == KILL, buffer.point;
      lastKind := KILL;
      PointField();
      var a, z := Min(p, q), Max(p, q);
      if a == z { return true; }
      var s := SliceOf(a, z);
      ok := Replace(a, z - a, []);
      if !ok { return; }
      AcceptsRange(d.text, a, z - a, []);
      EndKill(s, q < p, append, a);
    }

    method EndKill(s: bytes, backwards: bool, append: bool, at: nat)
      requires Valid()
      modifies this`killRing, this`yankIndex, buffer`markActive, buffer`point
      ensures Valid() && killRing == Kill.PushKill(old(killRing), s, backwards, append) && yankIndex == 0
      ensures D() == old(D()).(markActive := false, point := at)
    {
      hide Buffer.Valid, Buffer.D, Kill.PushKill;
      PushKill(s, backwards, append);
      buffer.SetActive(false);
      buffer.SetPoint(at);
    }

    lemma PointField()
      ensures buffer.point == D().point && buffer.historyPos == D().pos && |buffer.history| == |D().history|
    {
    }

    method SliceOf(a: nat, z: nat) returns (s: bytes)
      requires Valid() && a <= z
      ensures s == ClampedSlice(D().text, a, z)
    {
      s := buffer.text.Slice(a, z - a);
    }

    // ---- yank ----------------------------------------------------------------------

    ghost function Y(): Kill.Yank
      reads this, buffer, buffer.text, buffer.text.root
    {
      Kill.Yank(buffer.D(), yankIndex, yankStart, yankEnd)
    }

    static function YankIndex(explicitCount: bool, count: int, n: nat): nat
      requires n > 0
    {
      if explicitCount && count > 0 then (count - 1) % n else 0
    }

    /** The shared end of yank and yank-pop: insert ring[index] at point. */
    method InsertEntry(index: nat) returns (ok: bool)
      requires Valid() && index < |killRing|
      modifies this`nextState, this`Repr, this`yankIndex, this`yankStart, this`yankEnd, this`lastKind, buffer.Repr
      ensures Valid() && fresh(Repr - old(Repr)) && buffer == old(buffer)
      ensures ok == (!old(D()).readonly && Accepts(old(D()).text, old(D()).point, 0, killRing[index]))
      ensures !old(D()).readonly && IsBoundary(old(D()).text, old(D()).point) && Utf8.Valid(killRing[index]) ==> ok
      ensures ok ==> Y() == Kill.Insert(old(D()), killRing, index, group, old(nextState) + 1) && lastKind == YANK
      ensures !ok ==> D().text == old(D()).text && D().history == old(D()).history
    {
      hide Buffer.Valid, Buffer.D, Splice, Edited, Utf8.Valid;
      PointField();
      var p := buffer.point;
      yankIndex, yankStart := index, p;
      buffer.SetMark(p);
      ok := Replace(p, 0, killRing[index]);
      if !ok { return; }
      PointField();
      yankEnd := buffer.point;
      lastKind := YANK;
    }

    /** yank, with a count prefix or without. */
    method DoYank(explicitCount: bool, count: int) returns (ok: bool)
      requires Valid()
      modifies Repr
      ensures Valid() && fresh(Repr - old(Repr)) && buffer == old(buffer) && killRing == old(killRing)
      ensures ok ==> killRing != [] && lastKind == YANK && old(D()).point <= |old(D()).text|
      ensures ok ==> Y() == Kill.Insert(old(D()), killRing, YankIndex(explicitCount, count, |killRing|), group,
              old(nextState) + 1)
      ensures Yankable(old(D()), killRing) ==> ok
      ensures !ok ==> D().text == old(D()).text && D().history == old(D()).history
    {
      hide Buffer.Valid, Buffer.D, Kill.Insert;
      lastKind := 0;
      if |killRing| == 0 { return false; }
      ok := InsertEntry(YankIndex(explicitCount, count, |killRing|));
    }

    /** yank-pop. A remembered range that no longer fits the text is refused. */
    method DoYankPop(count: int) returns (ok: bool)
      requires Valid()
      modifies Repr
      ensures Valid() && fresh(Repr - old(Repr)) && buffer == old(buffer) && killRing == old(killRing)
      ensures ok ==> old(lastKind) == YANK && lastKind == YANK && killRing != []
      ensures ok ==> Removable(old(D()), old(yankStart), old(yankEnd))
      ensures ok ==> Y() == Kill.YankPop(old(Y()), killRing, count, group, old(nextState) + 1)
      ensures !Removable(old(D()), old(yankStart), old(yankEnd)) ==> D() == old(D())
      ensures Poppable(old(D()), old(yankStart), old(yankEnd), old(lastKind), killRing) ==> ok
    {
      hide Buffer.Valid, Buffer.D, Kill.Insert, Accepts, Splice, Edited, Utf8.Valid;
      PoppableRemovable(D(), yankStart, yankEnd, lastKind, killRing);
      var previous := lastKind;
      lastKind := 0;
      if |killRing| == 0 || previous != YANK { return false; }
      Kill.RotateIsModulo(yankIndex, count, |killRing|);
      var index := Kill.Rotate(yankIndex, count, |killRing|);
      yankIndex := index;
      ok := RemoveYanked();
      if ok { ok := InsertEntry(index); }
    }

    /** The deletion at the start of yank-pop. Were the end before the start,
        the unsigned difference would exceed any text and be refused. */
    method RemoveYanked() returns (ok: bool)
      requires Valid()
      modifies this`nextState, this`Repr, buffer.Repr
      ensures Valid() && fresh(Repr - old(Repr)) && buffer == old(buffer) && fresh(buffer.Repr - old(buffer.Repr))
      ensures ok == Removable(old(D()), yankStart, yankEnd) && (!ok ==> D() == old(D()))
      ensures ok ==> D() == Edited(old(D()), yankStart, yankEnd - yankStart, [], group,
              old(nextState) + 1).(point := yankStart)
      ensures ok ==> yankStart <= |D().text| && IsBoundary(D().text, yankStart) && !D().readonly
      ensures nextState == if ok && yankStart != yankEnd then old(nextState) + 1 else old(nextState)
    {
      hide Buffer.Valid, Buffer.D, Utf8.Valid, Edited, Splice;
      ghost var d := D();
      PointField();
      ValidEmpty();
      TextValid();
      if yankEnd < yankStart { return false; }
      ok := Replace(yankStart, yankEnd - yankStart, []);
      if !ok { return; }
      BoundaryKept(d.text, yankStart, yankEnd - yankStart);
      EditedText(d, yankStart, yankEnd - yankStart, [], group, old(nextState) + 1);
      buffer.SetPoint(yankStart);
    }

    lemma TextValid()
      requires Valid()
      ensures Utf8.Valid(D().text)
    {
      buffer.ContentsValid();
    }

    // ---- query-replace -----------------------------------------------------------

    /** The prompt's state: text, point and the match it asks about. */
    ghost function Q(): Query.State
      reads this, buffer, buffer.text, buffer.text.root
    {
      Query.State(buffer.D().text, buffer.D().point, if asking then At(replaceAt) else NotFound)
    }

    /** query_next. */
    method QueryNext()
      requires Valid() && replaceFrom != [] && D().point <= |D().text|
      modifies this`asking, this`replaceAt, buffer`point, buffer`mark, buffer`hasMark, buffer`markActive
      ensures Valid() && Query.Asked(old(D()).text, replaceFrom, old(D()).point, Q())
      ensures D().readonly == old(D()).readonly && D().point <= |D().text|
      ensures asking ==> D() == old(D()).(
        point := replaceAt + |replaceFrom|, mark := replaceAt, hasMark := true, markActive := true)
      ensures !asking ==> D() == old(D())
    {
      hide Buffer.Valid, Buffer.D;
      ghost var d := D();
      PointField();
      var found := FindFrom(buffer.point);
      match found
      case NotFound => asking := false;
      case At(x) =>
        replaceAt, asking := x, true;
        buffer.Select(x, x + |replaceFrom|);
    }

    method FindFrom(start: nat) returns (r: Found)
      requires Valid() && replaceFrom != [] && start <= |D().text|
      ensures r == Query.FirstFrom(D().text, replaceFrom, start)
    {
      ghost var steps;
      r, steps := Find(buffer.text, replaceFrom, start, false);
      Query.FirstFromReports(D().text, replaceFrom, start);
      Query.ReportsUnique(D().text, replaceFrom, start, r, Query.FirstFrom(D().text, replaceFrom, start));
    }

    /** The query-step prompt can act on the document d. */
    ghost predicate Ready(d: Doc)
      reads this
    {
      && replaceFrom != [] && Utf8.Valid(replaceFrom) && Utf8.Valid(replaceTo)
      && d.point <= |d.text|
      && (asking ==> Query.Asking(Query.State(d.text, d.point, At(replaceAt)), replaceFrom))
    }

    /** Answer y: one group, one replacement, then the next match. */
    method AcceptOne() returns (ok: bool)
      requires Valid() && Ready(D()) && asking
      modifies Repr
      ensures Valid() && fresh(Repr - old(Repr)) && buffer == old(buffer)
      ensures ok == !old(D()).readonly && D().readonly == old(D()).readonly
      ensures if ok then Query.Replaced(old(Q()), Q(), replaceFrom, replaceTo)
              else Q() == old(Q()).(pending := NotFound)
      ensures old(replaceAt) + |replaceFrom| <= |old(D()).text|
      ensures ok ==> D().history == Edited(old(D()), old(replaceAt), |replaceFrom|, replaceTo, group,
              old(nextState) + 1).history
      ensures !ok ==> D() == old(D())
      ensures Ready(D()) && replaceFrom == old(replaceFrom) && replaceTo == old(replaceTo) && group == old(group) + 1
    {
      hide Buffer.Valid, Buffer.D, Utf8.Valid, Splice, Query.FirstFrom, Query.Asking;
      ghost var q := Q();
      NextGroup();
      ok := ReplaceMatch();
      if !ok {
        asking := false;
        return;
      }
      QueryNext();
      Query.ReplacedFacts(q, Q(), replaceFrom, replaceTo);
    }

    method NextGroup()
      requires Valid() && Ready(D())
      modifies `group
      ensures Valid() && Ready(D()) && group == old(group) + 1 && D() == old(D()) && Q() == old(Q())
    {
      hide Buffer.Valid, Buffer.D, Utf8.Valid;
      group := group + 1;
    }

    /** Replaces the match asked about and puts point after the new text. */
    method ReplaceMatch() returns (ok: bool)
      requires Valid() && Ready(D()) && asking
      modifies Repr
      ensures Valid() && fresh(Repr - old(Repr)) && buffer == old(buffer)
      ensures ok == !old(D()).readonly && D().readonly == old(D()).readonly
      ensures !ok ==> D() == old(D())
      ensures replaceAt + |replaceFrom| <= |old(D()).text|
      ensures ok ==> D().text == Splice(old(D()).text, replaceAt, |replaceFrom|, replaceTo)
      ensures ok ==> D().point == replaceAt + |replaceTo| <= |D().text|
      ensures ok ==> D() == Edited(old(D()), replaceAt, |replaceFrom|, replaceTo, group, old(nextState) + 1).(
        point := replaceAt + |replaceTo|)
      ensures asking && replaceAt == old(replaceAt) && replaceFrom == old(replaceFrom) && replaceTo == old(replaceTo)
              && group == old(group)
    {
      hide Buffer.Valid, Buffer.D, Utf8.Valid, Edited, Splice;
      ghost var d := D();
      ghost var stamp := nextState + 1;
      PointField();
      TextValid();
      MatchOnBoundaries(d.text, replaceFrom, replaceAt);
      ok := Replace(replaceAt, |replaceFrom|, replaceTo);
      if !ok { return; }
      EditedText(d, replaceAt, |replaceFrom|, replaceTo, group, stamp);
      buffer.SetPoint(replaceAt + |replaceTo|);
    }

    /** The `!` loop. */
    method AcceptAll() returns (ok: bool)
      requires Valid() && Ready(D()) && asking
      modifies Repr
      ensures Valid() && fresh(Repr - old(Repr)) && buffer == old(buffer)
      ensures ok == !old(D()).readonly
      ensures if ok then Query.RestReplaced(old(Q()), Q(), replaceFrom, replaceTo)
              else Q() == old(Q()).(pending := NotFound)
      ensures Ready(D()) && replaceFrom == old(replaceFrom) && replaceTo == old(replaceTo)
    {
      hide Buffer.Valid, Buffer.D, Utf8.Valid, Query.Replaced, Query.RestReplaced, Query.Asking;
      ghost var p, t, first := replaceFrom, replaceTo, Q();
      ok := AcceptOne();
      if !ok { return; }
      Query.ReplacedFacts(first, Q(), p, t);
      while asking
        invariant Valid() && Ready(D()) && fresh(Repr - old(Repr)) && buffer == old(buffer) && !D().readonly
        invariant replaceFrom == p && replaceTo == t
        invariant if asking then forall z :: Query.RestReplaced(Q(), z, p, t) ==> Query.RestReplaced(first, z, p, t)
                  else Query.RestReplaced(first, Q(), p, t)
        decreases if asking then |D().text| - D().point + 1 else 0
      {
        ghost var q := Q();
        var again := AcceptOne();
        Query.ReplacedFacts(q, Q(), p, t);
      }
    }

    /** One key at the query-step prompt. */
    method QueryKey(a: Query.Answer) returns (ok: bool)
      requires Valid() && Ready(D()) && asking
      modifies Repr
      ensures Valid() && fresh(Repr - old(Repr)) && buffer == old(buffer)
      ensures if old(D()).readonly && (a == Query.Yes || a == Query.All)
              then !ok && Q() == old(Q()).(pending := NotFound)
              else ok && Query.Stepped(old(Q()), Q(), replaceFrom, replaceTo, a)
      ensures a == Query.Quit ==> D() == old(D()).(markActive := false)
      ensures a == Query.No ==> D().text == old(D()).text && D().history == old(D()).history
      ensures Ready(D()) && replaceFrom == old(replaceFrom) && replaceTo == old(replaceTo)
    {
      hide Buffer.Valid, Buffer.D, Utf8.Valid, Query.ReplaceOne, Query.QueryNext, Query.ReplaceRest;
      match a
      case Quit =>
        asking := false;
        buffer.SetActive(false);
        return true;
      case No =>
        QueryNext();
        return true;
      case Yes =>
        ok := AcceptOne();
      case All =>
        ok := AcceptAll();
    }
  }

  /** A count k selects the k-th newest entry, going round when there are fewer;
      without a count, or with one that is not positive, it is the newest. */
  lemma YankSelects(count: int, n: nat)
    requires n > 0
    ensures 1 <= count <= n ==> Editor.YankIndex(true, count, n) == count - 1
    ensures count > n ==> Editor.YankIndex(true, count, n) == Editor.YankIndex(true, count - n, n)
    ensures count <= 0 ==> Editor.YankIndex(true, count, n) == 0
    ensures Editor.YankIndex(false, count, n) == 0
  {
    if 1 <= count <= n { Modulo.ModuloUnique(count - 1, n, 0, count - 1); }
    if count > n {
      var q, r := (count - n - 1) / n, (count - n - 1) % n;
      assert count - n - 1 == n * q + r;
      assert (q + 1) * n == n * q + n;
      Modulo.ModuloUnique(count - 1, n, q + 1, r);
    }
  }

  /** The yanked text can be taken out again. */
  ghost predicate Removable(d: Doc, start: nat, end: nat)
    ensures Removable(d, start, end) ==> start <= end <= |d.text|
  {
    start <= end && !d.readonly && Accepts(d.text, start, end - start, [])
  }

  /** A yank that must succeed. */
  ghost predicate Yankable(d: Doc, ring: seq<bytes>) {
    ring != [] && !d.readonly && IsBoundary(d.text, d.point) && Kill.RingValid(ring)
  }

  /** A yank-pop that must succeed. */
  ghost predicate Poppable(d: Doc, start: nat, end: nat, lastKind: nat, ring: seq<bytes>) {
    lastKind == YANK && ring != [] && !d.readonly && Kill.RingValid(ring)
    && start <= end && IsBoundary(d.text, start) && IsBoundary(d.text, end)
  }

  lemma PoppableRemovable(d: Doc, start: nat, end: nat, lastKind: nat, ring: seq<bytes>)
    ensures Poppable(d, start, end, lastKind, ring) ==> Removable(d, start, end)
  {
    ValidEmpty();
  }

  lemma EditedText(d: Doc, at: nat, n: nat, s: bytes, group: nat, stamp: nat)
    requires at + n <= |d.text| && d.pos <= |d.history|
    ensures Edited(d, at, n, s, group, stamp).text == Splice(d.text, at, n, s)
    ensures Edited(d, at, n, s, group, stamp).readonly == d.readonly
    ensures |Splice(d.text, at, n, s)| == |d.text| - n + |s|
  {
    if n == 0 && s == [] { assert Splice(d.text, at, 0, []) == d.text; }
  }

  lemma BoundaryKept(c: bytes, at: nat, n: nat)
    requires Utf8.Valid(c) && at + n <= |c| && IsBoundary(c, at) && IsBoundary(c, at + n)
    ensures IsBoundary(Splice(c, at, n, []), at)
  {
    ValidEmpty();
    BoundaryAfterSplice(c, at, n, [], at);
  }
}
