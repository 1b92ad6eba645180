/** Killing and yanking as steps on a document and a kill ring. */
module Kill {
  import opened Bytes
  import opened Utf8
  import opened History
  import opened Document
  import opened Modulo

  const RING_SIZE := 60

  /** push_kill: extend the newest entry, or shift the ring. */
  function PushKill(ring: seq<bytes>, s: bytes, backwards: bool, append: bool): (r: seq<bytes>)
    ensures r != []
    ensures |ring| <= RING_SIZE ==> |r| <= RING_SIZE
  {
    if append && ring != [] then [if backwards then s + ring[0] else ring[0] + s] + ring[1..]
    else [s] + (if |ring| >= RING_SIZE then ring[..RING_SIZE - 1] else ring)
  }

  /** Kills one after another that each start an entry of their own. */
  function PushAll(ring: seq<bytes>, kills: seq<bytes>): seq<bytes> {
    if kills == [] then ring
    else PushKill(PushAll(ring, kills[..|kills| - 1]), kills[|kills| - 1], false, false)
  }

  /** The ring holds the newest kills, newest first, and behind them the older
      entries in their order, as far as 60 reach. */
  lemma {:induction false} NewestFirst(ring: seq<bytes>, kills: seq<bytes>)
    requires |ring| <= 60
    ensures var r := PushAll(ring, kills);
            && |r| == Min(|kills| + |ring|, 60)
            && (forall i :: 0 <= i < |r| && i < |kills| ==> r[i] == kills[|kills| - 1 - i])
            && (forall i :: |kills| <= i < |r| ==> r[i] == ring[i - |kills|])
    decreases |kills|
  {
    if kills != [] {
      var p := kills[..|kills| - 1];
      NewestFirst(ring, p);
      var q, r := PushAll(ring, p), PushAll(ring, kills);
      forall i | 0 <= i < |r|
        ensures r[i] == if i == 0 then kills[|kills| - 1] else q[i - 1]
      {
      }
    }
  }

  /** Extending the newest entry leaves the older ones alone; the text before
      point comes first. */
  lemma AppendsInOrder(ring: seq<bytes>, s: bytes, backwards: bool)
    requires ring != []
    ensures var r := PushKill(ring, s, backwards, true);
            && |r| == |ring| && (forall i :: 1 <= i < |r| ==> r[i] == ring[i])
            && (if backwards then r[0] == s + ring[0] else r[0] == ring[0] + s)
  {
  }

  datatype World = World(doc: Doc, ring: seq<bytes>)

  /** The kill from point to q removes something and is allowed. */
  predicate Effective(d: Doc, q: nat) {
    var a, z := Min(d.point, q), Max(d.point, q);
    a != z && !d.readonly && Accepts(d.text, a, z - a, [])
  }

  /** kill_range between point and another end q, as the kill commands call it:
      q before point is a backward kill. */
  function KillTo(w: World, q: nat, append: bool, group: nat, stamp: nat): World
    requires w.doc.pos <= |w.doc.history|
  {
    var d := w.doc;
    var a, z := Min(d.point, q), Max(d.point, q);
    if !Effective(d, q) then w
    else
      World(Edited(d, a, z - a, [], group, stamp).(point := a, markActive := false),
            PushKill(w.ring, d.text[a..z], q < d.point, append))
  }

  /** A run of kill commands; every one after the first finds that the previous
      command was a kill. */
  function KillRun(w: World, qs: seq<nat>, append: bool, group: nat, stamp: nat): World
    requires w.doc.pos <= |w.doc.history|
    decreases |qs|
  {
    if qs == [] then w
    else
      KillRun(KillTo(w, qs[0], append, group, stamp), qs[1..], true, group + 1, stamp + 1)
  }

  /** The text with the newest kill put back at point. */
  function Restored(w: World): bytes
    requires w.ring != [] && w.doc.point <= |w.doc.text|
  {
    w.doc.text[..w.doc.point] + w.ring[0] + w.doc.text[w.doc.point..]
  }

  predicate PointIn(w: World) {
    w.doc.point <= |w.doc.text| && w.doc.pos <= |w.doc.history|
  }

  /** A kill that starts a new entry: putting it back gives the old text. */
  lemma FreshKill(w: World, q: nat, append: bool, group: nat, stamp: nat)
    requires PointIn(w) && Effective(w.doc, q) && (!append || w.ring == [])
    ensures var v := KillTo(w, q, append, group, stamp);
            PointIn(v) && v.ring != [] && Restored(v) == w.doc.text
  {
    var a, z := Min(w.doc.point, q), Max(w.doc.point, q);
    var t := w.doc.text;
    var v := KillTo(w, q, append, group, stamp);
    assert v.doc.text[..a] == t[..a] && v.doc.text[a..] == t[z..];
    assert t == t[..a] + t[a..z] + t[z..];
  }

  /** A kill that extends the newest entry keeps what it would restore. */
  lemma AppendedKill(w: World, q: nat, group: nat, stamp: nat)
    requires PointIn(w) && w.ring != []
    ensures var v := KillTo(w, q, true, group, stamp);
            PointIn(v) && v.ring != [] && Restored(v) == Restored(w)
  {
    hide Accepts, KillTo, Splice;
    Killed(w, q, true, group, stamp);
    if Effective(w.doc, q) {
      var a, z := Min(w.doc.point, q), Max(w.doc.point, q);
      if q < w.doc.point {
        KilledBefore(w.doc.text, w.ring[0], a, z);
      } else {
        KilledAfter(w.doc.text, w.ring[0], a, z);
      }
    }
  }

  /** The parts of a kill's result. */
  lemma Killed(w: World, q: nat, append: bool, group: nat, stamp: nat)
    requires PointIn(w)
    ensures var v, a, z := KillTo(w, q, append, group, stamp), Min(w.doc.point, q), Max(w.doc.point, q);
            if Effective(w.doc, q) then
              && z <= |w.doc.text| && v.doc.text == Splice(w.doc.text, a, z - a, []) && v.doc.point == a
              && PointIn(v) && v.ring == PushKill(w.ring, w.doc.text[a..z], q < w.doc.point, append)
            else v == w
  {
    hide Accepts;
    if Effective(w.doc, q) {
      AcceptsIn(w.doc.text, Min(w.doc.point, q), Max(w.doc.point, q) - Min(w.doc.point, q));
    }
  }

  lemma AcceptsIn(t: bytes, at: nat, n: nat)
    requires Accepts(t, at, n, [])
    ensures at + n <= |t|
  {
  }

  lemma KilledBefore(t: bytes, k: bytes, a: nat, z: nat)
    requires a <= z <= |t|
    ensures var v := Splice(t, a, z - a, []);
            v[..a] + (t[a..z] + k) + v[a..] == t[..z] + k + t[z..]
  {
    CutOut(t, a, z);
    assert t[..z] == t[..a] + t[a..z];
  }

  lemma KilledAfter(t: bytes, k: bytes, a: nat, z: nat)
    requires a <= z <= |t|
    ensures var v := Splice(t, a, z - a, []);
            v[..a] + (k + t[a..z]) + v[a..] == t[..a] + k + t[a..]
  {
    CutOut(t, a, z);
    assert t[a..] == t[a..z] + t[z..];
  }

  lemma CutOut(t: bytes, a: nat, z: nat)
    requires a <= z <= |t|
    ensures Splice(t, a, z - a, [])[..a] == t[..a] && Splice(t, a, z - a, [])[a..] == t[z..]
  {
  }

  lemma {:induction false} AppendedRun(w: World, qs: seq<nat>, group: nat, stamp: nat)
    requires PointIn(w) && w.ring != []
    ensures var v := KillRun(w, qs, true, group, stamp);
            PointIn(v) && v.ring != [] && Restored(v) == Restored(w)
    decreases |qs|
  {
    if qs != [] {
      AppendedKill(w, qs[0], group, stamp);
      AppendedRun(KillTo(w, qs[0], true, group, stamp), qs[1..], group + 1, stamp + 1);
    }
  }

  /** Some kill of the run removes something. */
  predicate SomeEffect(w: World, qs: seq<nat>, append: bool, group: nat, stamp: nat)
    requires w.doc.pos <= |w.doc.history|
    decreases |qs|
  {
    && qs != []
    && (|| Effective(w.doc, qs[0])
        || SomeEffect(KillTo(w, qs[0], append, group, stamp), qs[1..], true, group + 1, stamp + 1))
  }

  lemma {:induction false} FirstEffect(w: World, qs: seq<nat>, append: bool, group: nat, stamp: nat)
    requires PointIn(w) && w.ring == [] && SomeEffect(w, qs, append, group, stamp)
    ensures var v := KillRun(w, qs, append, group, stamp);
            PointIn(v) && v.ring != [] && Restored(v) == w.doc.text
    decreases |qs|
  {
    if Effective(w.doc, qs[0]) {
      FreshKill(w, qs[0], append, group, stamp);
      AppendedRun(KillTo(w, qs[0], append, group, stamp), qs[1..], group + 1, stamp + 1);
    } else {
      FirstEffect(w, qs[1..], true, group + 1, stamp + 1);
    }
  }

  /** After a run of kills that follows some other command and removes anything
      at all, putting the newest entry back at point restores the original text
      exactly when the first kill removed something, or there was no older
      entry, or the newest older entry was empty: an empty first kill makes the
      next one extend the older entry. */
  lemma KillRunRestores(w: World, qs: seq<nat>, group: nat, stamp: nat)
    requires PointIn(w) && SomeEffect(w, qs, false, group, stamp)
    ensures var v := KillRun(w, qs, false, group, stamp);
            && PointIn(v) && v.ring != []
            && (Restored(v) == w.doc.text <==> Effective(w.doc, qs[0]) || w.ring == [] || w.ring[0] == [])
  {
    if w.ring == [] {
      FirstEffect(w, qs, false, group, stamp);
    } else if Effective(w.doc, qs[0]) {
      FreshKill(w, qs[0], false, group, stamp);
      AppendedRun(KillTo(w, qs[0], false, group, stamp), qs[1..], group + 1, stamp + 1);
    } else {
      AppendedRun(w, qs[1..], group + 1, stamp + 1);
      var p := w.doc.point;
      assert w.doc.text == w.doc.text[..p] + w.doc.text[p..];
      assert |Restored(w)| == |w.doc.text| + |w.ring[0]|;
      if w.ring[0] == [] {
        assert Restored(w) == w.doc.text;
      }
    }
  }

  // ---- The ring stays valid UTF-8 -------------------------------------------------

  /** At the end of `ab`, with `x` the newest entry: killing the line, which
      removes nothing, and then a word backwards. Yanking does not restore. */
  lemma KillExample()
    ensures var d := Doc([97, 98], 2, 0, false, false, false, false, 0, 0, 0, [], 0);
            var w, qs: seq<nat> := World(d, [[120]]), [2, 1];
            && PointIn(w) && SomeEffect(w, qs, false, 1, 1)
            && KillRun(w, qs, false, 1, 1).ring == [[98, 120]]
            && PointIn(KillRun(w, qs, false, 1, 1)) && Restored(KillRun(w, qs, false, 1, 1)) != d.text
  {
    var t: bytes := [97, 98];
    var d := Doc(t, 2, 0, false, false, false, false, 0, 0, 0, [], 0);
    var x: bytes, ring: seq<bytes>, qs: seq<nat> := [120], [[120]], [2, 1];
    var w := World(d, ring);
    assert qs[1..] == [1] && qs[1..][1..] == [];
    assert !Effective(d, 2) && KillTo(w, 2, false, 1, 1) == w;
    assert Valid([]) && t[1..2] == [98];
    assert Effective(d, 1);
    var s: bytes := [98];
    assert s + x == [98, 120] && ring[1..] == [];
    assert PushKill(ring, s, true, true) == [[98, 120]];
    assert KillRun(w, qs, false, 1, 1) == KillRun(w, qs[1..], true, 2, 2);
    assert KillRun(w, qs[1..], true, 2, 2) == KillTo(w, 1, true, 2, 2);
    KillRunRestores(w, qs, 1, 1);
  }

  predicate RingValid(ring: seq<bytes>) {
    forall i :: 0 <= i < |ring| ==> Valid(ring[i])
  }

  lemma PushKillValid(ring: seq<bytes>, s: bytes, backwards: bool, append: bool)
    requires RingValid(ring) && Valid(s)
    ensures RingValid(PushKill(ring, s, backwards, append))
  {
    hide Valid;
    if append && ring != [] {
      ValidConcat(ring[0], s);
      ValidConcat(s, ring[0]);
    }
  }

  lemma {:induction false} KillRunYankable(w: World, qs: seq<nat>, append: bool, group: nat, stamp: nat)
    requires w.doc.pos <= |w.doc.history| && Valid(w.doc.text) && IsBoundary(w.doc.text, w.doc.point)
             && RingValid(w.ring)
    ensures var v := KillRun(w, qs, append, group, stamp);
            Valid(v.doc.text) && IsBoundary(v.doc.text, v.doc.point) && RingValid(v.ring)
    decreases |qs|
  {
    hide Valid, IsBoundary, RingValid, KillTo;
    if qs != [] {
      KillYankable(w, qs[0], append, group, stamp);
      KillRunYankable(KillTo(w, qs[0], append, group, stamp), qs[1..], true, group + 1, stamp + 1);
    }
  }

  lemma KillYankable(w: World, q: nat, append: bool, group: nat, stamp: nat)
    requires w.doc.pos <= |w.doc.history| && Valid(w.doc.text) && IsBoundary(w.doc.text, w.doc.point)
    requires RingValid(w.ring)
    ensures var v := KillTo(w, q, append, group, stamp);
            && v.doc.pos <= |v.doc.history|
            && Valid(v.doc.text) && IsBoundary(v.doc.text, v.doc.point) && RingValid(v.ring)
  {
    hide Valid, PushKill;
    if Effective(w.doc, q) {
      var a, z := Min(w.doc.point, q), Max(w.doc.point, q);
      ValidSlice(w.doc.text, a, z);
      PushKillValid(w.ring, w.doc.text[a..z], q < w.doc.point, append);
      ValidSplice(w.doc.text, a, z - a, []);
      BoundaryAfterSplice(w.doc.text, a, z - a, [], a);
    }
  }

  // ---- yank and yank-pop -------------------------------------------------------------

  /** The ring entry count places further on; negative counts go back. */
  function Rotate(index: nat, count: int, n: nat): nat
    requires n > 0
  {
    Wrap(index + count, n)
  }

  lemma RotateIsModulo(index: nat, count: int, n: nat)
    requires n > 0
    ensures Rotate(index, count, n) == (index + count) % n < n
  {
    WrapIsModulo(index + count, n);
  }

  function Total(counts: seq<int>): int {
    if counts == [] then 0 else counts[0] + Total(counts[1..])
  }

  datatype Yank = Yank(doc: Doc, index: nat, start: nat, end: nat)

  /** The insertion that ends yank and yank-pop. */
  function Insert(d: Doc, ring: seq<bytes>, index: nat, group: nat, stamp: nat): Yank
    requires index < |ring| && d.point <= |d.text| && d.pos <= |d.history|
  {
    var e := Edited(d.(mark := d.point, hasMark := true), d.point, 0, ring[index], group, stamp);
    Yank(e, index, d.point, e.point)
  }

  function YankPop(y: Yank, ring: seq<bytes>, count: int, group: nat, stamp: nat): Yank
    requires ring != [] && y.start <= y.end <= |y.doc.text| && y.doc.pos <= |y.doc.history|
  {
    RotateIsModulo(y.index, count, |ring|);
    var d := Edited(y.doc, y.start, y.end - y.start, [], group, stamp).(point := y.start);
    Insert(d, ring, Rotate(y.index, count, |ring|), group, if y.start == y.end then stamp else stamp + 1)
  }

  /** ring[index] stands in t at p, between yank_start and yank_end, with mark
      before it and point behind it. */
  predicate Holds(y: Yank, ring: seq<bytes>, t: bytes, p: nat) {
    && y.index < |ring| && p <= |t| && y.start == p && y.end == p + |ring[y.index]| == y.doc.point
    && y.doc.text == Splice(t, p, 0, ring[y.index]) && y.doc.mark == p && y.doc.hasMark
    && y.doc.pos <= |y.doc.history|
  }

  lemma InsertHolds(d: Doc, ring: seq<bytes>, index: nat, group: nat, stamp: nat)
    requires index < |ring| && d.point <= |d.text| && d.pos <= |d.history|
    ensures Holds(Insert(d, ring, index, group, stamp), ring, d.text, d.point)
    ensures Insert(d, ring, index, group, stamp).index == index
  {
    if ring[index] == [] {
      assert Splice(d.text, d.point, 0, []) == d.text;
    }
  }

  lemma PopHolds(y: Yank, ring: seq<bytes>, t: bytes, p: nat, count: int, group: nat, stamp: nat)
    requires Holds(y, ring, t, p)
    ensures y.end <= |y.doc.text|
    ensures var v := YankPop(y, ring, count, group, stamp);
            Holds(v, ring, t, p) && v.index == (y.index + count) % |ring|
  {
    hide Rotate, Insert;
    RotateIsModulo(y.index, count, |ring|);
    SpliceBack(t, p, 0, ring[y.index]);
    assert t[p..p] == [];
    var d := Edited(y.doc, y.start, y.end - y.start, [], group, stamp).(point := y.start);
    InsertHolds(d, ring, Rotate(y.index, count, |ring|), group, if y.start == y.end then stamp else stamp + 1);
  }

  function Pops(y: Yank, ring: seq<bytes>, t: bytes, p: nat, counts: seq<int>, group: nat, stamp: nat): Yank
    requires Holds(y, ring, t, p)
    decreases |counts|
  {
    if counts == [] then y
    else
      PopHolds(y, ring, t, p, counts[0], group, stamp);
      Pops(YankPop(y, ring, counts[0], group, stamp), ring, t, p, counts[1..], group + 1, stamp + 2)
  }

  lemma HoldsFacts(y: Yank, ring: seq<bytes>, t: bytes, p: nat)
    requires Holds(y, ring, t, p)
    ensures y.index < |ring| && p <= |t| && y.doc.text == Splice(t, p, 0, ring[y.index])
    ensures y.start == p && y.end == y.doc.point && y.doc.mark == p && y.doc.hasMark
    ensures y.start <= y.end <= |y.doc.text| && y.doc.pos <= |y.doc.history|
  {
  }

  /** A yank followed by any yank-pops leaves, in the text the yank found, the
      ring entry that the summed counts select, at yank_start. */
  lemma {:induction false} PopsSelect(y: Yank, ring: seq<bytes>, t: bytes, p: nat, counts: seq<int>, group: nat,
      stamp: nat)
    requires Holds(y, ring, t, p)
    ensures var v := Pops(y, ring, t, p, counts, group, stamp);
            && v.index == (y.index + Total(counts)) % |ring|
            && v.doc.text == Splice(t, p, 0, ring[v.index]) && v.start == p && v.end == v.doc.point
            && v.doc.mark == p && v.doc.hasMark
    decreases |counts|
  {
    hide YankPop, Holds, Splice;
    var n := |ring|;
    HoldsFacts(y, ring, t, p);
    if counts == [] {
      ModuloUnique(y.index, n, 0, y.index);
    } else {
      PopHolds(y, ring, t, p, counts[0], group, stamp);
      var z := YankPop(y, ring, counts[0], group, stamp);
      PopsSelect(z, ring, t, p, counts[1..], group + 1, stamp + 2);
      ModuloShift(y.index + counts[0], Total(counts[1..]), n);
      assert y.index + Total(counts) == y.index + counts[0] + Total(counts[1..]);
    }
  }
}
