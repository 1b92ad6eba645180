/** The table of open buffers and the panes that show them. */
module BufferTable {
  import opened Modulo

  /** CP_MAX_BUFFERS, CP_MAX_PANES. */
  const MAX_BUFFERS := 256
  const MAX_PANES := 8

  datatype Buf = Buf(id: nat, name: string, size: nat, point: nat, modified: bool)
  datatype Pane = Pane(buffer: nat, top: nat, left: nat, point: nat)
  datatype State = State(buffers: seq<Buf>, current: nat, nextId: nat, panes: seq<Pane>, active: nat)

  // ---- The invariant -----------------------------------------------------------------

  /** First buffer with this id, or the number of buffers. */
  function IndexOf(buffers: seq<Buf>, id: nat): (i: nat)
    ensures i <= |buffers| && (i < |buffers| ==> buffers[i].id == id)
    ensures forall k :: 0 <= k < i ==> buffers[k].id != id
  {
    if buffers == [] || buffers[0].id == id then 0 else 1 + IndexOf(buffers[1..], id)
  }

  predicate Live(s: State, id: nat) {
    IndexOf(s.buffers, id) < |s.buffers|
  }

  predicate Distinct(buffers: seq<Buf>) {
    forall i, j :: 0 <= i < j < |buffers| ==> buffers[i].id != buffers[j].id
  }

  /** Ids are handed out in increasing order. */
  predicate Issued(buffers: seq<Buf>, nextId: nat) {
    forall i :: 0 <= i < |buffers| ==> 0 < buffers[i].id <= nextId
  }

  predicate PanesLive(s: State) {
    forall i :: 0 <= i < |s.panes| ==> Live(s, s.panes[i].buffer)
  }

  /** All of the invariant that does not mention the current buffer. */
  predicate Ready(s: State) {
    && 1 <= |s.buffers| <= MAX_BUFFERS && Distinct(s.buffers) && Issued(s.buffers, s.nextId)
    && 1 <= |s.panes| <= MAX_PANES && s.active < |s.panes|
    && PanesLive(s)
  }

  predicate Ok(s: State) {
    Ready(s) && s.current < |s.buffers| && s.panes[s.active].buffer == s.buffers[s.current].id
  }

  /** An id that was issued and whose buffer is gone. */
  predicate Retired(s: State, id: nat) {
    0 < id <= s.nextId && !Live(s, id)
  }

  lemma IndexAt(buffers: seq<Buf>, i: nat)
    requires Distinct(buffers) && i < |buffers|
    ensures IndexOf(buffers, buffers[i].id) == i
  {
  }

  // ---- The operations, as functions of the state ----------------------------------------

  function Switched(s: State, id: nat): State
    requires s.active < |s.panes|
  {
    var i := IndexOf(s.buffers, id);
    if i < |s.buffers| then s.(current := i, panes := s.panes[s.active := s.panes[s.active].(buffer := id)]) else s
  }

  function Created(s: State, name: string): State {
    if |s.buffers| >= MAX_BUFFERS then s
    else s.(buffers := s.buffers + [Buf(s.nextId + 1, name, 0, 0, false)], nextId := s.nextId + 1)
  }

  /** First buffer with another id, or the number of buffers. */
  function OtherThan(buffers: seq<Buf>, id: nat): (i: nat)
    ensures i <= |buffers| && (i < |buffers| ==> buffers[i].id != id)
    ensures forall k :: 0 <= k < i ==> buffers[k].id == id
  {
    if buffers == [] || buffers[0].id != id then 0 else 1 + OtherThan(buffers[1..], id)
  }

  function Redirect(p: Pane, id: nat, to: Buf): Pane {
    if p.buffer == id then Pane(to.id, 0, 0, to.point) else p
  }

  function Redirected(panes: seq<Pane>, id: nat, to: Buf): seq<Pane> {
    seq(|panes|, i requires 0 <= i < |panes| => Redirect(panes[i], id, to))
  }

  function Without(buffers: seq<Buf>, id: nat): seq<Buf> {
    var i := IndexOf(buffers, id);
    if i < |buffers| then buffers[..i] + buffers[i + 1..] else buffers
  }

  function Dropped(s: State, id: nat): State
    requires Ok(s) && Live(s, id)
  {
    var t := if |s.buffers| == 1 then Created(s, "*scratch*") else s;
    var k := OtherThan(t.buffers, id);
    TwoBuffers(s, t, id);
    var to := t.buffers[k];
    var selected := if t.buffers[t.current].id == id then to.id else t.buffers[t.current].id;
    Switched(t.(panes := Redirected(t.panes, id, to), buffers := Without(t.buffers, id)), selected)
  }

  lemma TwoBuffers(s: State, t: State, id: nat)
    requires Ok(s) && t == if |s.buffers| == 1 then Created(s, "*scratch*") else s
    ensures |t.buffers| >= 2 && Ok(t) && OtherThan(t.buffers, id) < |t.buffers|
    ensures Live(s, id) ==> Live(t, id)
  {
    if |s.buffers| == 1 {
      CreatedOk(s, "*scratch*");
      if Live(s, id) { assert t.buffers[0] == s.buffers[0]; }
    }
    assert t.buffers[0].id != t.buffers[1].id;
  }

  /** Count places further round a ring of n. */
  function Around(i: nat, count: int, n: nat): (r: nat)
    requires n > 0
    ensures r == (i + count) % n && r < n
  {
    WrapIsModulo(i + count, n);
    Wrap(i + count, n)
  }

  function Cycled(s: State, count: int): State
    requires Ok(s)
  {
    Switched(s, s.buffers[Around(s.current, count, |s.buffers|)].id)
  }

  /** The active pane remembers the point of the buffer it shows. */
  function Remembered(s: State): State
    requires Ok(s)
  {
    s.(panes := s.panes[s.active := s.panes[s.active].(point := s.buffers[s.current].point)])
  }

  function Focused(s: State, n: nat): State
    requires Ok(s) && n < |s.panes|
  {
    var t := Remembered(s).(active := n);
    Switched(t, t.panes[n].buffer)
  }

  function PointAt(b: Buf, at: nat): Buf {
    b.(point := if at > b.size then b.size else at)
  }

  function Moved(s: State, at: nat): State
    requires Ok(s)
  {
    s.(buffers := s.buffers[s.current := PointAt(s.buffers[s.current], at)])
  }

  function OtherWindow(s: State, count: int): State
    requires Ok(s)
  {
    var n := Around(s.active, count, |s.panes|);
    FocusedOk(s, n);
    Moved(Focused(s, n), Remembered(s).panes[n].point)
  }

  function SplitWindow(s: State): State
    requires Ok(s)
  {
    if |s.panes| >= MAX_PANES then s
    else var t := Remembered(s); t.(panes := t.panes + [t.panes[t.active]])
  }

  function OnlyWindow(s: State): State
    requires Ok(s)
  {
    s.(panes := [s.panes[s.active]], active := 0)
  }

  function ClosedWindow(s: State): State
    requires Ok(s)
  {
    if |s.panes| == 1 then s
    else
      var panes := s.panes[..s.active] + s.panes[s.active + 1..];
      var active := if s.active >= |panes| then 0 else s.active;
      Switched(s.(panes := panes, active := active), panes[active].buffer)
  }

  // ---- Every operation keeps the invariant --------------------------------------------------

  lemma LiveIn(buffers: seq<Buf>, i: nat)
    requires i < |buffers|
    ensures IndexOf(buffers, buffers[i].id) < |buffers|
  {
  }

  lemma CreatedOk(s: State, name: string)
    requires Ok(s)
    ensures Ok(Created(s, name))
    ensures forall id :: Retired(s, id) ==> Retired(Created(s, name), id)
  {
    hide IndexOf;
    var t := Created(s, name);
    assert forall i :: 0 <= i < |s.buffers| ==> t.buffers[i] == s.buffers[i];
    forall id
      ensures Live(s, id) ==> Live(t, id)
      ensures Retired(s, id) ==> Retired(t, id)
    {
      IndexAppended(s.buffers, t.buffers, id);
    }
  }

  /** A buffer at the end of the table hides no other, and has only its own id. */
  lemma IndexAppended(a: seq<Buf>, b: seq<Buf>, id: nat)
    requires a <= b
    ensures IndexOf(a, id) < |a| ==> IndexOf(b, id) < |b|
    ensures IndexOf(a, id) == |a| && |b| == |a| ==> IndexOf(b, id) == |b|
    ensures IndexOf(a, id) == |a| && |b| == |a| + 1 && b[|a|].id != id ==> IndexOf(b, id) == |b|
  {
    var i := IndexOf(a, id);
    if i < |a| { LiveIn(b, i); }
  }

  /** Switching works from any table whose buffers and panes are in order. */
  lemma SwitchedOk(s: State, id: nat)
    requires Ready(s) && Live(s, id)
    ensures Ok(Switched(s, id)) && Switched(s, id).buffers[Switched(s, id).current].id == id
  {
  }

  lemma WithoutAt(buffers: seq<Buf>, id: nat, i: nat)
    requires i < |Without(buffers, id)|
    ensures var k := IndexOf(buffers, id);
            var j := if i < k then i else i + 1;
            && j < |buffers| + (if k == |buffers| then 1 else 0)
            && (k < |buffers| ==> j != k && Without(buffers, id)[i] == buffers[j])
  {
    hide IndexOf;
  }

  lemma WithoutDistinct(buffers: seq<Buf>, id: nat)
    requires Distinct(buffers)
    ensures Distinct(Without(buffers, id))
    ensures forall i :: 0 <= i < |Without(buffers, id)| ==>
            Without(buffers, id)[i] in buffers && Without(buffers, id)[i].id != id
  {
    hide IndexOf;
    var r, k := Without(buffers, id), IndexOf(buffers, id);
    forall i | 0 <= i < |r|
      ensures r[i] in buffers && r[i].id != id
    {
      WithoutAt(buffers, id, i);
    }
    assert k < |buffers| ==> forall i :: 0 <= i < |r| ==> r[i] == buffers[if i < k then i else i + 1];
  }

  /** Removing a buffer removes its id and no other. */
  lemma WithoutIndex(buffers: seq<Buf>, id: nat, other: nat)
    requires Distinct(buffers)
    ensures var r := Without(buffers, id);
            IndexOf(r, other) < |r| <==> other != id && IndexOf(buffers, other) < |buffers|
  {
    var r := Without(buffers, id);
    WithoutDistinct(buffers, id);
    if other != id && IndexOf(buffers, other) < |buffers| {
      WithoutFinds(buffers, id, other);
    }
  }

  lemma WithoutFinds(buffers: seq<Buf>, id: nat, other: nat)
    requires other != id && IndexOf(buffers, other) < |buffers|
    ensures IndexOf(Without(buffers, id), other) < |Without(buffers, id)|
  {
    hide IndexOf;
    var r, k, j := Without(buffers, id), IndexOf(buffers, id), IndexOf(buffers, other);
    if k < |buffers| {
      assert r[if j < k then j else j - 1] == buffers[j];
      LiveIn(r, if j < k then j else j - 1);
    }
  }

  /** The two intermediate states of killing a buffer. */
  lemma DroppedBy(s: State, id: nat) returns (t: State, to: Buf, u: State, selected: nat)
    requires Ok(s) && Live(s, id)
    ensures Ok(t) && t.nextId >= s.nextId && (t == s || t == Created(s, "*scratch*"))
    ensures t == if |s.buffers| == 1 then Created(s, "*scratch*") else s
    ensures to in t.buffers && to.id != id && Live(t, id)
    ensures Without(t.buffers, id) != [] && Without(t.buffers, id)[0] == to
    ensures u == t.(panes := Redirected(t.panes, id, to), buffers := Without(t.buffers, id))
    ensures selected == if s.buffers[s.current].id == id then to.id else s.buffers[s.current].id
    ensures Live(t, to.id) && Live(t, selected) && selected != id
    ensures Dropped(s, id) == Switched(u, selected)
  {
    t := if |s.buffers| == 1 then Created(s, "*scratch*") else s;
    TwoBuffers(s, t, id);
    to := t.buffers[OtherThan(t.buffers, id)];
    u := t.(panes := Redirected(t.panes, id, to), buffers := Without(t.buffers, id));
    selected := if t.buffers[t.current].id == id then to.id else t.buffers[t.current].id;
    LiveIn(t.buffers, OtherThan(t.buffers, id));
    LiveIn(t.buffers, t.current);
    FirstOther(t.buffers, id);
    assert t.buffers[t.current] == s.buffers[s.current];
  }

  lemma WithoutOk(t: State, id: nat, to: Buf, u: State)
    requires Ok(t) && to in t.buffers && to.id != id && Live(t, to.id)
    requires u == t.(panes := Redirected(t.panes, id, to), buffers := Without(t.buffers, id))
    ensures Ready(u) && u.nextId == t.nextId && !Live(u, id) && u.active < |u.panes|
    ensures forall other :: other != id && Live(t, other) ==> Live(u, other)
    ensures forall other :: !Live(t, other) ==> !Live(u, other)
  {
    hide IndexOf, Without;
    WithoutDistinct(t.buffers, id);
    WithoutSize(t.buffers, id, to.id);
    forall other
      ensures Live(u, other) <==> other != id && Live(t, other)
    {
      WithoutIndex(t.buffers, id, other);
    }
  }

  lemma WithoutSize(buffers: seq<Buf>, id: nat, other: nat)
    requires Distinct(buffers) && id != other && IndexOf(buffers, other) < |buffers|
    ensures 1 <= |Without(buffers, id)| <= |buffers|
  {
  }

  /** Killing a buffer removes it and nothing else. */
  lemma DroppedOk(s: State, id: nat)
    requires Ok(s) && Live(s, id)
    ensures var t := Dropped(s, id);
            && Ok(t) && Retired(t, id) && t.nextId >= s.nextId
            && (s.buffers[s.current].id != id ==> t.buffers[t.current].id == s.buffers[s.current].id)
    ensures forall other :: other != id && Live(s, other) ==> Live(Dropped(s, id), other)
    ensures forall other :: Retired(s, other) ==> Retired(Dropped(s, id), other)
  {
    hide IndexOf, Dropped, Without, Redirected, Live, Ready;
    var t, to, u, selected := DroppedBy(s, id);
    KeptByCreation(s, t);
    WithoutOk(t, id, to, u);
    SwitchedOk(u, selected);
    SwitchedLive(u, selected);
    IssuedLive(s, id);
  }

  lemma SwitchedLive(s: State, id: nat)
    requires s.active < |s.panes|
    ensures forall other :: Live(Switched(s, id), other) == Live(s, other)
    ensures Switched(s, id).nextId == s.nextId
  {
  }

  lemma IssuedLive(s: State, id: nat)
    requires Ok(s) && Live(s, id)
    ensures 0 < id <= s.nextId
  {
    assert s.buffers[IndexOf(s.buffers, id)].id == id;
  }

  lemma KeptByCreation(s: State, t: State)
    requires Ok(s) && (t == s || t == Created(s, "*scratch*"))
    ensures forall id :: Live(s, id) ==> Live(t, id)
    ensures forall id :: Retired(s, id) ==> Retired(t, id)
  {
    CreatedOk(s, "*scratch*");
    forall id | Live(s, id)
      ensures Live(t, id)
    {
      var k := IndexOf(s.buffers, id);
      assert t.buffers[k].id == id;
    }
  }

  /** Every other buffer is kept as it was, in the same order. */
  lemma DroppedBuffers(s: State, id: nat)
    requires Ok(s) && Live(s, id) && |s.buffers| > 1
    ensures var k := IndexOf(s.buffers, id); Dropped(s, id).buffers == s.buffers[..k] + s.buffers[k + 1..]
  {
    hide IndexOf;
    var t, to, u, selected := DroppedBy(s, id);
  }

  /** Panes that did not show the killed buffer are left alone, those that did
      show the first remaining one. */
  lemma DroppedPanes(s: State, id: nat, i: nat)
    requires Ok(s) && Live(s, id) && i < |s.panes|
    ensures var t := Dropped(s, id);
            && |t.panes| == |s.panes| && t.active == s.active
            && (s.panes[i].buffer != id ==> t.panes[i] == s.panes[i])
            && (s.panes[i].buffer == id ==> t.panes[i].buffer == t.buffers[0].id)
  {
    hide IndexOf, OtherThan, Without, Redirected, Live, Ready, Dropped;
    var t, to, u, selected := DroppedBy(s, id);
    ActiveInRange(s);
    RedirectedAt(t.panes, id, to, i);
    RedirectedAt(t.panes, id, to, s.active);
    SwitchedSame(u, selected);
  }

  lemma ActiveInRange(s: State)
    requires Ready(s)
    ensures s.active < |s.panes|
  {
  }

  /** Switching to the buffer the active pane shows already leaves all panes. */
  lemma SwitchedSame(s: State, id: nat)
    requires s.active < |s.panes| && s.panes[s.active].buffer == id
    ensures var t := Switched(s, id); t.panes == s.panes && t.active == s.active && t.buffers == s.buffers
  {
    hide IndexOf;
  }

  lemma RedirectedAt(panes: seq<Pane>, id: nat, to: Buf, i: nat)
    requires i < |panes|
    ensures |Redirected(panes, id, to)| == |panes| && Redirected(panes, id, to)[i] == Redirect(panes[i], id, to)
  {
  }

  lemma OtherSoon(buffers: seq<Buf>, id: nat)
    requires Distinct(buffers)
    ensures OtherThan(buffers, id) <= 1
  {
    if |buffers| >= 2 { assert buffers[0].id != buffers[1].id; }
  }

  lemma FirstOther(buffers: seq<Buf>, id: nat)
    requires Distinct(buffers) && OtherThan(buffers, id) < |buffers|
    ensures Without(buffers, id) != [] && Without(buffers, id)[0] == buffers[OtherThan(buffers, id)]
  {
    var k := OtherThan(buffers, id);
    OtherSoon(buffers, id);
    if k == 1 { IndexAt(buffers, 0); }
  }

  lemma RememberedOk(s: State)
    requires Ok(s)
    ensures Ok(Remembered(s))
  {
  }

  lemma FocusedOk(s: State, n: nat)
    requires Ok(s) && n < |s.panes|
    ensures Ok(Focused(s, n)) && Focused(s, n).active == n && Focused(s, n).buffers == s.buffers
    ensures var t := Focused(s, n); t.buffers[t.current].id == s.panes[n].buffer && t.nextId == s.nextId
    ensures Focused(s, n).panes == Remembered(s).panes
  {
    RememberedOk(s);
    var t := Remembered(s).(active := n);
    assert PanesLive(t);
    SwitchedOk(t, t.panes[n].buffer);
  }

  lemma FocusedLive(s: State, n: nat)
    requires Ok(s) && n < |s.panes|
    ensures forall id :: Live(Focused(s, n), id) == Live(s, id)
  {
    FocusedOk(s, n);
  }

  lemma MovedOk(s: State, at: nat)
    requires Ok(s)
    ensures Ok(Moved(s, at)) && Moved(s, at).nextId == s.nextId && forall id :: Live(Moved(s, at), id) == Live(s, id)
  {
    SameIds(s.buffers, Moved(s, at).buffers);
  }

  lemma {:induction false} SameIndex(a: seq<Buf>, b: seq<Buf>, id: nat)
    requires |a| == |b| && forall i :: 0 <= i < |a| ==> a[i].id == b[i].id
    ensures IndexOf(a, id) == IndexOf(b, id)
  {
    if a != [] { SameIndex(a[1..], b[1..], id); }
  }

  lemma SameIds(a: seq<Buf>, b: seq<Buf>)
    requires |a| == |b| && forall i :: 0 <= i < |a| ==> a[i].id == b[i].id
    ensures forall id :: IndexOf(a, id) == IndexOf(b, id)
  {
    forall id
      ensures IndexOf(a, id) == IndexOf(b, id)
    {
      SameIndex(a, b, id);
    }
  }

  lemma OtherWindowOk(s: State, count: int)
    requires Ok(s)
    ensures Ok(OtherWindow(s, count)) && OtherWindow(s, count).nextId == s.nextId
    ensures forall id :: Live(OtherWindow(s, count), id) == Live(s, id)
  {
    hide Live, Focused, Moved, Around, IndexOf;
    var n := Around(s.active, count, |s.panes|);
    FocusedOk(s, n);
    FocusedLive(s, n);
    MovedOk(Focused(s, n), Remembered(s).panes[n].point);
  }

  lemma SplitOk(s: State)
    requires Ok(s)
    ensures Ok(SplitWindow(s)) && Ok(OnlyWindow(s))
  {
    hide IndexOf;
    RememberedOk(s);
  }

  lemma ClosedOk(s: State)
    requires Ok(s)
    ensures Ok(ClosedWindow(s))
  {
    hide IndexOf;
    if |s.panes| > 1 {
      var panes := s.panes[..s.active] + s.panes[s.active + 1..];
      var active := if s.active >= |panes| then 0 else s.active;
      var t := s.(panes := panes, active := active);
      assert forall i :: 0 <= i < |panes| ==> panes[i] == s.panes[if i < s.active then i else i + 1];
      SwitchedOk(t, panes[active].buffer);
    }
  }

  // ---- Runs ------------------------------------------------------------------------------

  datatype Command =
    | New(name: string)
    | Visit(id: nat)
    | Open(name: string)
    | SwitchTo(name: string)
    | Cycle(count: int)
    | KillNamed(name: string)
    | Confirmed(id: nat)
    | Split
    | Other(count: int)
    | Only
    | Close
    | Click(pane: nat)
    | Edit(size: nat, point: nat, modified: bool)

  /** First, and last, buffer of a name; the number of buffers when none. */
  function FirstNamed(buffers: seq<Buf>, name: string): (i: nat)
    ensures i <= |buffers| && (i < |buffers| ==> buffers[i].name == name)
    ensures forall k :: 0 <= k < i ==> buffers[k].name != name
  {
    if buffers == [] || buffers[0].name == name then 0 else 1 + FirstNamed(buffers[1..], name)
  }

  function LastNamed(buffers: seq<Buf>, name: string): (i: nat)
    ensures i <= |buffers| && (i < |buffers| ==> buffers[i].name == name)
    ensures i < |buffers| ==> forall k :: i < k < |buffers| ==> buffers[k].name != name
    ensures i == |buffers| ==> forall k :: 0 <= k < |buffers| ==> buffers[k].name != name
  {
    if buffers == [] then 0
    else if buffers[|buffers| - 1].name == name then |buffers| - 1
    else
      var i := LastNamed(buffers[..|buffers| - 1], name);
      if i == |buffers| - 1 then |buffers| else i
  }

  /** A new buffer in the active pane; nothing when the table is full. */
  function Opened(s: State, name: string): State
    requires s.active < |s.panes|
  {
    if |s.buffers| >= MAX_BUFFERS then s else Switched(Created(s, name), s.nextId + 1)
  }

  function Chosen(s: State, name: string): State
    requires Ok(s)
  {
    var i := FirstNamed(s.buffers, name);
    if name == "" && |s.buffers| > 1 then Switched(s, s.buffers[Around(s.current, 1, |s.buffers|)].id)
    else if i < |s.buffers| then Switched(s, s.buffers[i].id)
    else Opened(s, if name == "" then "*scratch*" else name)
  }

  function Killed(s: State, name: string): State
    requires Ok(s)
  {
    var i := LastNamed(s.buffers, name);
    if i < |s.buffers| && !s.buffers[i].modified then
      LiveIn(s.buffers, i);
      Dropped(s, s.buffers[i].id)
    else s
  }

  function Edited(s: State, size: nat, point: nat, modified: bool): State
    requires Ok(s)
  {
    var b := s.buffers[s.current];
    var at := if point > size then size else point;
    s.(buffers := s.buffers[s.current := b.(size := size, point := at, modified := modified)])
  }

  function Step(s: State, cmd: Command): State
    requires Ok(s)
  {
    match cmd
    case New(name) => Created(s, name)
    case Visit(id) => Switched(s, id)
    case Open(name) => Opened(s, name)
    case SwitchTo(name) => Chosen(s, name)
    case Cycle(count) => Cycled(s, count)
    case KillNamed(name) => Killed(s, name)
    case Confirmed(id) => if Live(s, id) then Dropped(s, id) else s
    case Split => SplitWindow(s)
    case Other(count) => OtherWindow(s, count)
    case Only => OnlyWindow(s)
    case Close => ClosedWindow(s)
    case Click(pane) => if pane < |s.panes| then Focused(s, pane) else s
    case Edit(size, point, modified) => Edited(s, size, point, modified)
  }

  /** The invariant is kept and retired ids stay retired. */
  ghost predicate Keeps(s: State, t: State) {
    Ok(t) && s.nextId <= t.nextId && forall id :: Retired(s, id) ==> Retired(t, id)
  }

  lemma SameLiveKeeps(s: State, t: State)
    requires Ok(t) && t.nextId == s.nextId && forall id :: Live(t, id) == Live(s, id)
    ensures Keeps(s, t)
  {
  }

  lemma SwitchKeeps(s: State, id: nat)
    requires Ok(s)
    ensures Keeps(s, Switched(s, id))
  {
    hide IndexOf;
    if Live(s, id) { SwitchedOk(s, id); }
    SwitchedLive(s, id);
    SameLiveKeeps(s, Switched(s, id));
  }

  lemma OpenKeeps(s: State, name: string)
    requires Ok(s)
    ensures Keeps(s, Opened(s, name))
  {
    hide IndexOf, Live, Ready, Switched;
    CreatedOk(s, name);
    if |s.buffers| < MAX_BUFFERS { SwitchKeeps(Created(s, name), s.nextId + 1); }
  }

  lemma ChooseKeeps(s: State, name: string)
    requires Ok(s)
    ensures Keeps(s, Chosen(s, name))
  {
    hide IndexOf, Live, Switched, Opened, Keeps, Around;
    var i := FirstNamed(s.buffers, name);
    if name == "" && |s.buffers| > 1 {
      SwitchKeeps(s, s.buffers[Around(s.current, 1, |s.buffers|)].id);
    } else if i < |s.buffers| {
      SwitchKeeps(s, s.buffers[i].id);
    } else {
      OpenKeeps(s, if name == "" then "*scratch*" else name);
    }
  }

  lemma EditKeeps(s: State, size: nat, point: nat, modified: bool)
    requires Ok(s)
    ensures Keeps(s, Edited(s, size, point, modified))
  {
    SameIds(s.buffers, Edited(s, size, point, modified).buffers);
  }

  lemma CloseKeeps(s: State)
    requires Ok(s)
    ensures Keeps(s, ClosedWindow(s))
  {
    hide IndexOf, Ready;
    ClosedOk(s);
    SameLiveKeeps(s, ClosedWindow(s));
  }

  lemma StepKeeps(s: State, cmd: Command)
    requires Ok(s)
    ensures Keeps(s, Step(s, cmd))
  {
    hide IndexOf, Ready, Switched, Opened, Chosen, Dropped, Focused, OtherWindow, ClosedWindow, Created, Around, Edited;
    match cmd
    case New(name) => CreatedOk(s, name); assert Created(s, name).nextId >= s.nextId by { CreatedId(s, name); }
    case Visit(id) => SwitchKeeps(s, id);
    case Open(name) => OpenKeeps(s, name);
    case SwitchTo(name) => ChooseKeeps(s, name);
    case Cycle(count) => SwitchKeeps(s, s.buffers[Around(s.current, count, |s.buffers|)].id);
    case KillNamed(name) =>
      var i := LastNamed(s.buffers, name);
      if i < |s.buffers| && !s.buffers[i].modified {
        LiveIn(s.buffers, i);
        DroppedOk(s, s.buffers[i].id);
      }
    case Confirmed(id) => if Live(s, id) { DroppedOk(s, id); }
    case Split => SplitOk(s); SameLiveKeeps(s, SplitWindow(s));
    case Other(count) => OtherWindowOk(s, count); SameLiveKeeps(s, OtherWindow(s, count));
    case Only => SplitOk(s); SameLiveKeeps(s, OnlyWindow(s));
    case Close => CloseKeeps(s);
    case Click(pane) =>
      if pane < |s.panes| {
        FocusedOk(s, pane);
        FocusedLive(s, pane);
        SameLiveKeeps(s, Focused(s, pane));
      }
    case Edit(size, point, modified) => EditKeeps(s, size, point, modified);
  }

  lemma CreatedId(s: State, name: string)
    ensures s.nextId <= Created(s, name).nextId
  {
  }

  function Run(s: State, cmds: seq<Command>): State
    requires Ok(s)
    decreases |cmds|
  {
    if cmds == [] then s
    else
      StepKeeps(s, cmds[0]);
      Run(Step(s, cmds[0]), cmds[1..])
  }

  /** Over every run ids stay distinct, panes show live buffers, the active pane
      shows the current buffer, and the id of a killed buffer is never given
      to another one. */
  lemma {:induction false} RunKeeps(s: State, cmds: seq<Command>)
    requires Ok(s)
    ensures Keeps(s, Run(s, cmds))
    decreases |cmds|
  {
    hide Ok, Retired, Step;
    if cmds != [] {
      StepKeeps(s, cmds[0]);
      RunKeeps(Step(s, cmds[0]), cmds[1..]);
    }
  }

  /** editor_init. */
  const START := State([Buf(1, "*scratch*", 0, 0, false)], 0, 1, [Pane(1, 0, 0, 0)], 0)

  lemma StartOk()
    ensures Ok(START)
  {
  }

  // ---- Where each command ends up ------------------------------------------------------------

  /** Buffer i is current and shown in the active pane; nothing else changed. */
  predicate Shows(s: State, t: State, i: nat) {
    && t.buffers == s.buffers && t.nextId == s.nextId && t.active == s.active && |t.panes| == |s.panes|
    && t.current == i < |s.buffers|
    && (forall k :: 0 <= k < |s.panes| && k != s.active ==> t.panes[k] == s.panes[k])
    && s.active < |s.panes| && t.panes[s.active] == s.panes[s.active].(buffer := s.buffers[i].id)
  }

  /** An empty, unmodified buffer of that name was added behind the others,
      under an id larger than all ids so far. */
  predicate Added(s: State, t: State, name: string) {
    && t.buffers == s.buffers + [Buf(t.nextId, name, 0, 0, false)] && t.nextId == s.nextId + 1
    && t.current == s.current && t.panes == s.panes && t.active == s.active
  }

  /** Added and shown, when there is room for one of 256. */
  predicate AddedShown(s: State, t: State, name: string) {
    if |s.buffers| < 256 then Shows(Created(s, name), t, |s.buffers|) && Added(s, Created(s, name), name) else t == s
  }

  /** Buffer i is gone; a scratch buffer stands in for the last one. Panes that
      showed it show the first remaining buffer at its point, and so does the
      active pane when it was current. */
  predicate Gone(s: State, t: State, i: nat)
    requires i < |s.buffers| && s.current < |s.buffers|
  {
    && t.buffers == (if |s.buffers| > 1 then s.buffers[..i] + s.buffers[i + 1..]
                     else [Buf(s.nextId + 1, "*scratch*", 0, 0, false)])
    && t.active == s.active && |t.panes| == |s.panes| && t.current < |t.buffers|
    && (if s.current == i then t.current == 0
        else t.buffers[t.current] == s.buffers[s.current])
    && forall k :: 0 <= k < |s.panes| ==>
         t.panes[k] == if s.panes[k].buffer == s.buffers[i].id then Pane(t.buffers[0].id, 0, 0, t.buffers[0].point)
                       else s.panes[k]
  }

  /** The first, and the last, buffer of a name; by id there is only one. */
  predicate FirstOf(s: State, name: string, i: nat) {
    i < |s.buffers| && s.buffers[i].name == name && forall k :: 0 <= k < i ==> s.buffers[k].name != name
  }

  predicate LastOf(s: State, name: string, i: nat) {
    i < |s.buffers| && s.buffers[i].name == name && forall k :: i < k < |s.buffers| ==> s.buffers[k].name != name
  }

  predicate NamedNowhere(s: State, name: string) {
    forall k :: 0 <= k < |s.buffers| ==> s.buffers[k].name != name
  }

  predicate Unknown(s: State, id: nat) {
    forall k :: 0 <= k < |s.buffers| ==> s.buffers[k].id != id
  }

  /** Pane n is active and shows what it showed; the pane left behind keeps the
      point of its buffer. The buffer gone to is current. */
  predicate WentTo(s: State, t: State, n: nat) {
    && n < |s.panes| == |t.panes| && t.active == n && t.nextId == s.nextId
    && s.current < |s.buffers| == |t.buffers| && t.current < |t.buffers|
    && (forall k :: 0 <= k < |s.panes| && k != s.active ==> t.panes[k] == s.panes[k])
    && s.active < |s.panes| && t.panes[s.active] == s.panes[s.active].(point := s.buffers[s.current].point)
    && t.buffers[t.current].id == t.panes[n].buffer
  }

  /** What a command does, by what it was told. */
  predicate Effect(s: State, t: State, cmd: Command)
    requires Ok(s)
  {
    var n := |s.buffers|;
    match cmd
    case New(name) => if n < 256 then Added(s, t, name) else t == s
    case Visit(id) =>
      && (Unknown(s, id) ==> t == s) && forall i :: 0 <= i < n && s.buffers[i].id == id ==> Shows(s, t, i)
    case Open(name) => AddedShown(s, t, name)
    case SwitchTo(name) =>
      if name == "" && n > 1 then Shows(s, t, (s.current + 1) % n)
      else
        && (forall i :: 0 <= i < n && FirstOf(s, name, i) ==> Shows(s, t, i))
        && (NamedNowhere(s, name) ==> AddedShown(s, t, if name == "" then "*scratch*" else name))
    case Cycle(count) => Shows(s, t, (s.current + count) % n)
    case KillNamed(name) =>
      && (NamedNowhere(s, name) ==> t == s)
      && forall i :: 0 <= i < n && LastOf(s, name, i) ==> if s.buffers[i].modified then t == s else Gone(s, t, i)
    case Confirmed(id) =>
      && (Unknown(s, id) ==> t == s) && forall i :: 0 <= i < n && s.buffers[i].id == id ==> Gone(s, t, i)
    case Split =>
      if |s.panes| >= 8 then t == s
      else
        var seen := s.panes[s.active].(point := s.buffers[s.current].point);
        t == s.(panes := s.panes[s.active := seen] + [seen])
    case Other(count) =>
      && WentTo(s, t, (s.active + count) % |s.panes|)
      && (forall k :: 0 <= k < n && k != t.current ==> t.buffers[k] == s.buffers[k])
      && t.buffers[t.current].point <= t.buffers[t.current].size
      && t.buffers[t.current] == s.buffers[t.current].(point := t.buffers[t.current].point)
      && (t.panes[t.active].point <= t.buffers[t.current].size ==>
            t.buffers[t.current].point == t.panes[t.active].point)
    case Only => t == s.(panes := [s.panes[s.active]], active := 0)
    case Close =>
      if |s.panes| == 1 then t == s
      else
        && t.buffers == s.buffers && t.nextId == s.nextId && |t.panes| == |s.panes| - 1
        && (forall k :: 0 <= k < |t.panes| ==> t.panes[k] == s.panes[if k < s.active then k else k + 1])
        && t.active == (if s.active == |t.panes| then 0 else s.active)
        && t.current < n && t.buffers[t.current].id == t.panes[t.active].buffer
    case Click(pane) => if pane < |s.panes| then WentTo(s, t, pane) && t.buffers == s.buffers else t == s
    case Edit(size, point, modified) =>
      var b := s.buffers[s.current];
      var at := if point <= size then point else size;
      t == s.(buffers := s.buffers[s.current := Buf(b.id, b.name, size, at, modified)])
  }

  lemma SwitchShows(s: State, i: nat)
    requires Ready(s) && i < |s.buffers|
    ensures Shows(s, Switched(s, s.buffers[i].id), i)
  {
    IndexAt(s.buffers, i);
  }

  lemma UnknownIs(s: State, id: nat)
    ensures Unknown(s, id) <==> !Live(s, id)
    ensures Unknown(s, id) && s.active < |s.panes| ==> Switched(s, id) == s
  {
    var i := IndexOf(s.buffers, id);
    if i < |s.buffers| { assert s.buffers[i].id == id; }
  }

  lemma VisitEffect(s: State, id: nat)
    requires Ok(s)
    ensures Effect(s, Switched(s, id), Visit(id))
  {
    hide IndexOf, Switched, Shows;
    UnknownIs(s, id);
    forall i | 0 <= i < |s.buffers| && s.buffers[i].id == id
      ensures Shows(s, Switched(s, id), i)
    {
      SwitchShows(s, i);
    }
  }

  lemma OpenEffect(s: State, name: string)
    requires Ok(s)
    ensures AddedShown(s, Opened(s, name), name)
  {
    hide IndexOf, Switched, Shows, Ready;
    if |s.buffers| < MAX_BUFFERS {
      CreatedOk(s, name);
      SwitchShows(Created(s, name), |s.buffers|);
    }
  }

  lemma ChooseEffect(s: State, name: string)
    requires Ok(s)
    ensures Effect(s, Chosen(s, name), SwitchTo(name))
  {
    hide IndexOf, Switched, Shows, AddedShown, Opened, Ready, FirstNamed, FirstOf, NamedNowhere;
    var i := FirstNamed(s.buffers, name);
    OkReady(s);
    FirstOfIs(s, name);
    if name == "" && |s.buffers| > 1 {
      SwitchShows(s, Around(s.current, 1, |s.buffers|));
    } else {
      if i < |s.buffers| { SwitchShows(s, i); }
      OpenEffect(s, if name == "" then "*scratch*" else name);
    }
  }

  lemma FirstOfIs(s: State, name: string)
    ensures var i := FirstNamed(s.buffers, name);
            && (NamedNowhere(s, name) <==> i == |s.buffers|)
            && forall k :: 0 <= k < |s.buffers| ==> (FirstOf(s, name, k) <==> k == i)
  {
    hide FirstNamed;
  }

  lemma OkReady(s: State)
    requires Ok(s)
    ensures Ready(s) && s.current < |s.buffers| && s.active < |s.panes|
  {
  }

  lemma GoneEffect(s: State, i: nat)
    requires Ok(s) && i < |s.buffers|
    ensures Live(s, s.buffers[i].id) && Gone(s, Dropped(s, s.buffers[i].id), i)
  {
    hide IndexOf, OtherThan, Without, Redirected, Live, Ready, Dropped, Switched, Created;
    var id := s.buffers[i].id;
    OkReady(s);
    LiveAt(s, i);
    var t, to, u, selected := DroppedBy(s, id);
    GoneBuffers(s, i, t);
    OneId(s, i, s.current);
    WithoutOk(t, id, to, u);
    SwitchedOk(u, selected);
    GoneCurrent(s, t, i, to, u, selected);
    forall k | 0 <= k < |s.panes|
      ensures |Dropped(s, id).panes| == |s.panes| && Dropped(s, id).active == s.active
      ensures Dropped(s, id).panes[k] == Redirect(s.panes[k], id, to)
    {
      GonePane(s, t, i, to, u, selected, k);
    }
  }

  lemma LiveAt(s: State, i: nat)
    requires Ready(s) && i < |s.buffers|
    ensures Live(s, s.buffers[i].id) && IndexOf(s.buffers, s.buffers[i].id) == i
  {
    IndexAt(s.buffers, i);
  }

  lemma GoneBuffers(s: State, i: nat, t: State)
    requires Ok(s) && i < |s.buffers| && t == if |s.buffers| == 1 then Created(s, "*scratch*") else s
    ensures Without(t.buffers, s.buffers[i].id)
         == if |s.buffers| > 1 then s.buffers[..i] + s.buffers[i + 1..]
            else [Buf(s.nextId + 1, "*scratch*", 0, 0, false)]
    ensures t.panes == s.panes && t.active == s.active
  {
    hide IndexOf;
    IndexAt(s.buffers, i);
    if |s.buffers| == 1 {
      CreatedOk(s, "*scratch*");
      assert t.buffers[0] == s.buffers[0];
      IndexAt(t.buffers, 0);
    }
  }

  /** The buffer current after one is killed. */
  lemma GoneCurrent(s: State, t: State, i: nat, to: Buf, u: State, selected: nat)
    requires Ok(s) && i < |s.buffers| && Ready(u) && Live(u, selected)
    requires u.buffers != [] && u.buffers[0] == to
    requires u.buffers == if |s.buffers| > 1 then s.buffers[..i] + s.buffers[i + 1..]
                          else [Buf(s.nextId + 1, "*scratch*", 0, 0, false)]
    requires selected == if s.current == i then to.id else s.buffers[s.current].id
    ensures var v := Switched(u, selected);
            && v.buffers == u.buffers && v.current < |v.buffers|
            && (if s.current == i then v.current == 0 else v.buffers[v.current] == s.buffers[s.current])
  {
    hide IndexOf;
    SwitchedOk(u, selected);
    if s.current == i {
      IndexAt(u.buffers, 0);
    } else {
      var k := if s.current < i then s.current else s.current - 1;
      assert u.buffers[k] == s.buffers[s.current];
      IndexAt(u.buffers, k);
    }
  }

  lemma GonePane(s: State, t: State, i: nat, to: Buf, u: State, selected: nat, k: nat)
    requires Ok(s) && i < |s.buffers| && k < |s.panes| && t.panes == s.panes && t.active == s.active
    requires u.panes == Redirected(s.panes, s.buffers[i].id, to) && u.active == s.active
    requires selected == if s.current == i then to.id else s.buffers[s.current].id
    ensures var v := Switched(u, selected);
            && |v.panes| == |s.panes| && v.active == s.active
            && v.panes[k] == Redirect(s.panes[k], s.buffers[i].id, to)
  {
    hide IndexOf, Redirected, Ready;
    OkReady(s);
    var id := s.buffers[i].id;
    RedirectedAt(s.panes, id, to, k);
    RedirectedAt(s.panes, id, to, s.active);
    OneId(s, i, s.current);
    SwitchedSame(u, selected);
  }

  lemma OneId(s: State, i: nat, j: nat)
    requires Ready(s) && i < |s.buffers| && j < |s.buffers|
    ensures s.buffers[i].id == s.buffers[j].id <==> i == j
  {
  }

  lemma KillEffect(s: State, name: string)
    requires Ok(s)
    ensures Effect(s, Killed(s, name), KillNamed(name))
  {
    hide Gone, Dropped, Ready;
    OkReady(s);
    var i := LastNamed(s.buffers, name);
    if i < |s.buffers| { GoneEffect(s, i); }
  }

  lemma ConfirmEffect(s: State, id: nat)
    requires Ok(s)
    ensures Effect(s, if Live(s, id) then Dropped(s, id) else s, Confirmed(id))
  {
    hide Gone, Dropped, Ready, Live;
    OkReady(s);
    UnknownIs(s, id);
    forall i | 0 <= i < |s.buffers| && s.buffers[i].id == id
      ensures Live(s, id) && Gone(s, Dropped(s, id), i)
    {
      GoneEffect(s, i);
    }
  }

  lemma WindowEffect(s: State, count: int)
    requires Ok(s)
    ensures Effect(s, OtherWindow(s, count), Other(count))
  {
    hide IndexOf, OtherWindow;
    OtherFacts(s, count);
    OtherWindowOk(s, count);
    assert Around(s.active, count, |s.panes|) == (s.active + count) % |s.panes|;
  }

  lemma CloseEffect(s: State)
    requires Ok(s)
    ensures Effect(s, ClosedWindow(s), Close)
  {
    hide IndexOf;
    ClosedOk(s);
  }

  lemma ClickEffect(s: State, pane: nat)
    requires Ok(s) && pane < |s.panes|
    ensures WentTo(s, Focused(s, pane), pane) && Focused(s, pane).buffers == s.buffers
  {
    hide IndexOf;
    FocusedOk(s, pane);
  }

  /** Every command ends where it was told to, and changes nothing else. */
  lemma StepEffect(s: State, cmd: Command)
    requires Ok(s)
    ensures Effect(s, Step(s, cmd), cmd)
  {
    hide IndexOf, Ready, Switched, Opened, Chosen, Dropped, Killed, OtherWindow, ClosedWindow, Around, Gone, Shows,
         WentTo, AddedShown, Focused;
    OkReady(s);
    match cmd
    case New(name) =>
    case Visit(id) => VisitEffect(s, id);
    case Open(name) => OpenEffect(s, name);
    case SwitchTo(name) => ChooseEffect(s, name);
    case Cycle(count) => SwitchShows(s, Around(s.current, count, |s.buffers|));
    case KillNamed(name) => KillEffect(s, name);
    case Confirmed(id) => ConfirmEffect(s, id);
    case Split =>
    case Other(count) => WindowEffect(s, count);
    case Only =>
    case Close => CloseEffect(s);
    case Click(pane) => if pane < |s.panes| { ClickEffect(s, pane); }
    case Edit(size, point, modified) =>
  }

  // ---- Commands that undo each other ------------------------------------------------------

  /** Moving back through the ring of buffers undoes moving forward. */
  lemma CycleBack(s: State, count: int)
    requires Ok(s)
    ensures Ok(Cycled(s, count)) && Cycled(Cycled(s, count), -count) == s
  {
    hide IndexOf, Around, Distinct, Issued, PanesLive;
    var n := |s.buffers|;
    var i := Around(s.current, count, n);
    IndexAt(s.buffers, i);
    IndexAt(s.buffers, s.current);
    LiveIn(s.buffers, i);
    SwitchedOk(s, s.buffers[i].id);
    AroundBack(s.current, count, n);
  }

  /** What going to another window changes. */
  lemma OtherFacts(s: State, count: int)
    requires Ok(s)
    ensures var t, n := OtherWindow(s, count), Around(s.active, count, |s.panes|);
            && Ok(t) && t.active == n && t.panes == Remembered(s).panes
            && t.current == IndexOf(s.buffers, s.panes[n].buffer) < |s.buffers|
            && t.buffers == s.buffers[t.current := PointAt(s.buffers[t.current], t.panes[n].point)]
  {
    var n := Around(s.active, count, |s.panes|);
    FocusedOk(s, n);
    MovedOk(Focused(s, n), Remembered(s).panes[n].point);
  }

  /** Going to another window and back restores the window, its buffer and, if
      it was inside the buffer, the point. */
  lemma OtherBack(s: State, count: int)
    requires Ok(s) && s.buffers[s.current].point <= s.buffers[s.current].size
    ensures Ok(OtherWindow(s, count))
    ensures var t := OtherWindow(OtherWindow(s, count), -count);
            t.active == s.active && t.current == s.current && t.buffers[t.current] == s.buffers[s.current]
  {
    hide IndexOf, Around, OtherWindow;
    OtherFacts(s, count);
    var t := OtherWindow(s, count);
    OtherFacts(t, -count);
    AroundBack(s.active, count, |s.panes|);
    SameIds(s.buffers, t.buffers);
    OkDistinct(s);
    IndexAt(s.buffers, s.current);
  }

  lemma OkDistinct(s: State)
    requires Ok(s)
    ensures Distinct(s.buffers)
  {
  }

  lemma AroundBack(i: nat, count: int, n: nat)
    requires i < n
    ensures Around(Around(i, count, n), -count, n) == i
  {
    WrapBack(i, count, n);
  }

  // ---- The editor's fields ------------------------------------------------------------------

  class Table {
    var buffers: seq<Buf>
    var current: nat
    var nextId: nat
    var panes: seq<Pane>
    var active: nat

    function Abs(): State
      reads this
    {
      State(buffers, current, nextId, panes, active)
    }

    /** editor_init. */
    constructor ()
      ensures Abs() == START && Ok(Abs())
    {
      buffers := [Buf(1, "*scratch*", 0, 0, false)];
      panes := [Pane(1, 0, 0, 0)];
      current, nextId, active := 0, 1, 0;
    }

    /** editor_by_id, as an index. */
    method Find(id: nat) returns (i: nat)
      ensures i == IndexOf(buffers, id)
    {
      i := 0;
      while i < |buffers| && buffers[i].id != id
        invariant i <= |buffers| && IndexOf(buffers, id) == i + IndexOf(buffers[i..], id)
      {
        assert buffers[i..][1..] == buffers[i + 1..];
        i := i + 1;
      }
    }

    /** editor_switch. */
    method Switch(id: nat)
      requires active < |panes|
      modifies `current, `panes
      ensures Abs() == Switched(old(Abs()), id)
    {
      var i := Find(id);
      if i < |buffers| {
        current := i;
        panes := panes[active := panes[active].(buffer := id)];
      }
    }

    /** editor_new_buffer. */
    method NewBuffer(name: string) returns (made: bool)
      modifies `buffers, `nextId
      ensures made == (|old(buffers)| < MAX_BUFFERS)
      ensures Abs() == Created(old(Abs()), name)
    {
      if |buffers| >= MAX_BUFFERS { return false; }
      nextId := nextId + 1;
      buffers := buffers + [Buf(nextId, name, 0, 0, false)];
      return true;
    }

    /** The loop over panes of editor_drop_buffer. */
    method RedirectPanes(id: nat, to: Buf)
      modifies `panes
      ensures panes == Redirected(old(panes), id, to) && |panes| == |old(panes)|
    {
      var i: nat := 0;
      while i < |panes|
        invariant i <= |panes| == |old(panes)|
        invariant forall k :: 0 <= k < i ==> panes[k] == Redirect(old(panes)[k], id, to)
        invariant forall k :: i <= k < |panes| ==> panes[k] == old(panes)[k]
      {
        if panes[i].buffer == id { panes := panes[i := Pane(to.id, 0, 0, to.point)]; }
        i := i + 1;
      }
    }

    method FindOther(id: nat) returns (i: nat)
      ensures i == OtherThan(buffers, id)
    {
      i := 0;
      while i < |buffers| && buffers[i].id == id
        invariant i <= |buffers| && OtherThan(buffers, id) == i + OtherThan(buffers[i..], id)
      {
        assert buffers[i..][1..] == buffers[i + 1..];
        i := i + 1;
      }
    }

    /** editor_drop_buffer. */
    method Drop(id: nat)
      requires Ok(Abs()) && Live(Abs(), id)
      modifies this
      ensures Abs() == Dropped(old(Abs()), id)
    {
      hide Ok, Live, IndexOf, OtherThan, Redirected;
      ghost var s := Abs();
      if |buffers| == 1 { var made := NewBuffer("*scratch*"); }
      TwoBuffers(s, Abs(), id);
      OkBounds(Abs());
      var k := FindOther(id);
      var to := buffers[k];
      var selected := if buffers[current].id == id then to.id else buffers[current].id;
      RedirectPanes(id, to);
      var i := Find(id);
      if i < |buffers| { buffers := buffers[..i] + buffers[i + 1..]; }
      Switch(selected);
    }

    method FindFirst(name: string) returns (i: nat)
      ensures i == FirstNamed(buffers, name)
    {
      i := 0;
      while i < |buffers| && buffers[i].name != name
        invariant i <= |buffers| && FirstNamed(buffers, name) == i + FirstNamed(buffers[i..], name)
      {
        assert buffers[i..][1..] == buffers[i + 1..];
        i := i + 1;
      }
    }

    method FindLast(name: string) returns (i: nat)
      ensures i == LastNamed(buffers, name)
    {
      i := |buffers|;
      var k: nat := 0;
      while k < |buffers|
        invariant k <= |buffers|
        invariant i == |buffers| || i < k
        invariant LastNamed(buffers[..k], name) == if i == |buffers| then k else i
      {
        assert buffers[..k + 1][..k] == buffers[..k];
        if buffers[k].name == name { i := k; }
        k := k + 1;
      }
      assert buffers[..k] == buffers;
    }

    method Open(name: string)
      requires active < |panes|
      modifies this
      ensures Abs() == Opened(old(Abs()), name)
    {
      var made := NewBuffer(name);
      if made { Switch(nextId); }
    }

    /** switch-to-buffer. */
    method SwitchByName(name: string)
      requires Ok(Abs())
      modifies this
      ensures Abs() == Chosen(old(Abs()), name)
    {
      hide IndexOf, FirstNamed, Live;
      if name == "" && |buffers| > 1 {
        WrapIsModulo(current + 1, |buffers|);
        Switch(buffers[(current + 1) % |buffers|].id);
        return;
      }
      var i := FindFirst(name);
      if i < |buffers| {
        Switch(buffers[i].id);
      } else {
        Open(if name == "" then "*scratch*" else name);
      }
    }

    /** kill-buffer; a modified buffer is killed only by a later confirmation. */
    method KillByName(name: string) returns (ask: bool)
      requires Ok(Abs())
      modifies this
      ensures Abs() == Killed(old(Abs()), name)
      ensures ask == (var i := LastNamed(old(buffers), name); i < |old(buffers)| && old(buffers)[i].modified)
    {
      hide Ok, Dropped;
      var i := FindLast(name);
      ask := i < |buffers| && buffers[i].modified;
      if i < |buffers| && !ask {
        LiveIn(buffers, i);
        Drop(buffers[i].id);
      }
    }

    /** The active pane takes the current buffer's point. */
    method Remember()
      requires Ok(Abs())
      modifies `panes
      ensures Abs() == Remembered(old(Abs()))
    {
      panes := panes[active := panes[active].(point := buffers[current].point)];
    }

    method Focus(n: nat)
      requires Ok(Abs()) && n < |panes|
      modifies this
      ensures Abs() == Focused(old(Abs()), n)
    {
      hide IndexOf, Live;
      Remember();
      active := n;
      Switch(panes[n].buffer);
    }

    /** other-window. */
    method GoToOther(count: int)
      requires Ok(Abs())
      modifies this
      ensures Abs() == OtherWindow(old(Abs()), count)
    {
      hide Focused, IndexOf, Live;
      ghost var s := Abs();
      WrapIsModulo(active + count, |panes|);
      var n := Wrap(active + count, |panes|);
      FocusedOk(s, n);
      Focus(n);
      var b := buffers[current];
      buffers := buffers[current := b.(point := if panes[n].point > b.size then b.size else panes[n].point)];
    }

    method SplitActive()
      requires Ok(Abs())
      modifies this
      ensures Abs() == SplitWindow(old(Abs()))
    {
      if |panes| < MAX_PANES {
        Remember();
        panes := panes + [panes[active]];
      }
    }

    /** delete-window. */
    method CloseActive()
      requires Ok(Abs())
      modifies this
      ensures Abs() == ClosedWindow(old(Abs()))
    {
      hide IndexOf, Live;
      if |panes| > 1 {
        panes := panes[..active] + panes[active + 1..];
        if active >= |panes| { active := 0; }
        Switch(panes[active].buffer);
      }
    }

    /** Commands that involve the table, one at a time. */
    method Dispatch(cmd: Command)
      requires Ok(Abs())
      modifies this
      ensures Abs() == Step(old(Abs()), cmd) && Ok(Abs())
    {
      hide Ready, IndexOf, Switched, Opened, Chosen, Killed, Dropped, Focused, OtherWindow, ClosedWindow,
           SplitWindow, Created;
      StepKeeps(Abs(), cmd);
      match cmd
      case New(name) => var made := NewBuffer(name);
      case Visit(id) => OkBounds(Abs()); Switch(id);
      case Open(name) => OkBounds(Abs()); Open(name);
      case SwitchTo(name) => SwitchByName(name);
      case Cycle(count) =>
        OkBounds(Abs());
        WrapIsModulo(current + count, |buffers|);
        Switch(buffers[Wrap(current + count, |buffers|)].id);
      case KillNamed(name) => var ask := KillByName(name);
      case Confirmed(id) =>
        var i := Find(id);
        if i < |buffers| { Drop(id); }
      case Split => SplitActive();
      case Other(count) => GoToOther(count);
      case Only =>
        OkBounds(Abs());
        panes, active := [panes[active]], 0;
      case Close => CloseActive();
      case Click(pane) => if pane < |panes| { Focus(pane); }
      case Edit(size, point, modified) =>
        OkBounds(Abs());
        var at := if point > size then size else point;
        buffers := buffers[current := buffers[current].(size := size, point := at, modified := modified)];
    }
  }

  lemma OkBounds(s: State)
    requires Ok(s)
    ensures s.buffers != [] && s.current < |s.buffers| && s.panes != [] && s.active < |s.panes|
  {
  }
}
