/** Query-replace: what a sequence of answers does to the text. */
module Query {
  import opened Bytes
  import opened Search

  // ---- The reference: leftmost non-overlapping matches ------------------------

  function FirstFrom(c: bytes, p: bytes, start: nat): (r: Found)
    ensures r.At? ==> start <= r.offset && Occurs(c, p, r.offset)
    decreases |c| - start
  {
    if start > |c| then NotFound
    else if Occurs(c, p, start) then At(start)
    else FirstFrom(c, p, start + 1)
  }

  /** The specification of a forward search has one solution. */
  lemma {:induction false} FirstFromReports(c: bytes, p: bytes, start: nat)
    ensures Reports(c, p, start, false, FirstFrom(c, p, start))
    decreases |c| - start
  {
    if start <= |c| && !Occurs(c, p, start) {
      FirstFromReports(c, p, start + 1);
    }
  }

  lemma ReportsUnique(c: bytes, p: bytes, start: nat, r: Found, q: Found)
    requires Reports(c, p, start, false, r) && Reports(c, p, start, false, q)
    ensures r == q
  {
  }

  /** Offsets of the leftmost non-overlapping matches from start on. */
  function Matches(c: bytes, p: bytes, start: nat): seq<nat>
    requires p != []
    decreases |c| - start
  {
    match FirstFrom(c, p, start)
    case NotFound => []
    case At(m) => [m] + Matches(c, p, m + |p|)
  }

  /** c from start on, with the accepted ones among those matches replaced. */
  function Rebuilt(c: bytes, p: bytes, t: bytes, start: nat, accepted: seq<bool>): bytes
    requires p != [] && start <= |c|
    decreases |c| - start
  {
    match FirstFrom(c, p, start)
    case NotFound => c[start..]
    case At(m) =>
      if accepted == [] then c[start..]
      else c[start..m] + (if accepted[0] then t else p) + Rebuilt(c, p, t, m + |p|, accepted[1..])
  }

  datatype Answer = Yes | No | All | Quit

  /** Which of n matches the answers accept: `!` accepts all that remain, `q`
      and a missing answer none. */
  function Accepted(n: nat, answers: seq<Answer>): seq<bool>
  {
    if n == 0 || answers == [] then []
    else
      match answers[0]
      case Yes => [true] + Accepted(n - 1, answers[1..])
      case No => [false] + Accepted(n - 1, answers[1..])
      case All => seq(n, _ => true)
      case Quit => []
  }

  /** The k-th key decides the k-th match while it is y or n; ! accepts that and
      every later match, q that and no later one. */
  lemma {:induction false} KeyDecides(n: nat, answers: seq<Answer>, k: nat)
    requires k < n && k < |answers| && forall j :: 0 <= j < k ==> answers[j] in {Yes, No}
    ensures var a := Accepted(n, answers);
            && (answers[k] in {Yes, No} ==> k < |a| && (a[k] <==> answers[k] == Yes))
            && (answers[k] == All ==> |a| == n && forall i :: k <= i < n ==> a[i])
            && (answers[k] == Quit ==> |a| == k)
    decreases k
  {
    if k > 0 {
      assert answers[0] in {Yes, No};
      KeyDecides(n - 1, answers[1..], k - 1);
      var a, b := Accepted(n, answers), Accepted(n - 1, answers[1..]);
      assert |a| == |b| + 1 && forall i :: 1 <= i < |a| ==> a[i] == b[i - 1];
    }
  }

  /** Refusing every match leaves the text alone. */
  lemma {:induction false} RefusedKeeps(c: bytes, p: bytes, t: bytes, start: nat, accepted: seq<bool>)
    requires p != [] && start <= |c| && forall i :: 0 <= i < |accepted| ==> !accepted[i]
    ensures Rebuilt(c, p, t, start, accepted) == c[start..]
    decreases |c| - start
  {
    match FirstFrom(c, p, start)
    case NotFound =>
    case At(m) =>
      if accepted != [] {
        RefusedKeeps(c, p, t, m + |p|, accepted[1..]);
        assert c[m..m + |p|] == p;
        ThreeParts(c, start, m, m + |p|);
      }
  }

  lemma ThreeParts(c: bytes, a: nat, m: nat, z: nat)
    requires a <= m <= z <= |c|
    ensures c[a..m] + c[m..z] + c[z..] == c[a..]
  {
  }

  // ---- The machine -----------------------------------------------------------------

  /** Text, point and the match the prompt asks about. */
  datatype State = State(text: bytes, point: nat, pending: Found)

  predicate Asking(q: State, p: bytes) {
    q.pending.At? && Occurs(q.text, p, q.pending.offset) && q.point == q.pending.offset + |p|
  }

  /** query_next. */
  function QueryNext(text: bytes, p: bytes, point: nat): (q: State)
    ensures q.text == text && (q.pending.At? ==> Asking(q, p) && q.pending.offset >= point)
  {
    match FirstFrom(text, p, point)
    case NotFound => State(text, point, NotFound)
    case At(m) => State(text, m + |p|, At(m))
  }

  /** One accepted replacement and the search after it. */
  function ReplaceOne(q: State, p: bytes, t: bytes): (r: State)
    requires p != [] && Asking(q, p)
    ensures |r.text| - |q.text| == |t| - |p|
    ensures r.pending.At? ==> Asking(r, p) && |r.text| - r.point < |q.text| - q.point
  {
    var m := q.pending.offset;
    QueryNext(Splice(q.text, m, |p|, t), p, m + |t|)
  }

  /** The `!` loop: it ends because the text after point shrinks. */
  function ReplaceRest(q: State, p: bytes, t: bytes): State
    requires p != [] && Asking(q, p)
    decreases |q.text| - q.point
  {
    var r := ReplaceOne(q, p, t);
    if r.pending.At? then ReplaceRest(r, p, t) else r
  }

  /** One key at the query prompt. */
  function Step(q: State, p: bytes, t: bytes, a: Answer): (r: State)
    requires p != [] && (q.pending.At? ==> Asking(q, p))
    ensures r.pending.At? ==> Asking(r, p)
  {
    if q.pending.NotFound? then q
    else
      match a
      case Yes => ReplaceOne(q, p, t)
      case No => QueryNext(q.text, p, q.point)
      case All =>
        RestEnds(q, p, t);
        ReplaceRest(q, p, t)
      case Quit => q.(pending := NotFound)
  }

  // The same steps as relations between two states.

  ghost predicate Asked(text: bytes, p: bytes, point: nat, r: State) {
    r == QueryNext(text, p, point)
  }

  ghost predicate Replaced(q: State, r: State, p: bytes, t: bytes) {
    p != [] && Asking(q, p) && r == ReplaceOne(q, p, t)
  }

  ghost predicate RestReplaced(q: State, r: State, p: bytes, t: bytes) {
    p != [] && Asking(q, p) && r == ReplaceRest(q, p, t)
  }

  ghost predicate Stepped(q: State, r: State, p: bytes, t: bytes, a: Answer) {
    p != [] && (q.pending.At? ==> Asking(q, p)) && r == Step(q, p, t, a)
  }

  lemma ReplacedFacts(q: State, r: State, p: bytes, t: bytes)
    requires Replaced(q, r, p, t)
    ensures r.point <= |r.text| && (r.pending.At? ==> Asking(r, p) && |r.text| - r.point < |q.text| - q.point)
    ensures r.pending.NotFound? ==> RestReplaced(q, r, p, t)
    ensures r.pending.At? ==> forall z :: RestReplaced(r, z, p, t) ==> RestReplaced(q, z, p, t)
  {
  }

  lemma {:induction false} RestEnds(q: State, p: bytes, t: bytes)
    requires p != [] && Asking(q, p)
    ensures ReplaceRest(q, p, t).pending.NotFound?
    decreases |q.text| - q.point
  {
    var r := ReplaceOne(q, p, t);
    if r.pending.At? { RestEnds(r, p, t); }
  }

  function Answering(q: State, p: bytes, t: bytes, answers: seq<Answer>): State
    requires p != [] && (q.pending.At? ==> Asking(q, p))
    decreases |answers|
  {
    if answers == [] then q else Answering(Step(q, p, t, answers[0]), p, t, answers[1..])
  }

  // ---- The machine meets the reference -----------------------------------------------

  /** Text searched from x on only matters from x on. */
  lemma {:induction false} FirstFromSuffix(c: bytes, d: bytes, p: bytes, x: nat, y: nat, start: nat)
    requires x <= |c| && y <= |d| && c[x..] == d[y..] && x <= start
    ensures var r, s := FirstFrom(c, p, start), FirstFrom(d, p, start - x + y);
            r.At? == s.At? && (r.At? ==> s.offset == r.offset - x + y)
    decreases |c| - start
  {
    OccursSuffix(c, d, p, x, y, start);
    if start <= |c| && !Occurs(c, p, start) {
      FirstFromSuffix(c, d, p, x, y, start + 1);
    }
  }

  lemma OccursSuffix(c: bytes, d: bytes, p: bytes, x: nat, y: nat, i: nat)
    requires x <= |c| && y <= |d| && c[x..] == d[y..] && x <= i
    ensures |c| - x == |d| - y
    ensures Occurs(c, p, i) == Occurs(d, p, i - x + y)
  {
    assert |c[x..]| == |d[y..]|;
    if i + |p| <= |c| {
      var k, z := i - x, i - x + |p|;
      assert c[x..][k..z] == c[i..i + |p|];
      assert d[y..][k..z] == d[k + y..z + y];
    }
  }

  /** The text is what was settled so far followed by the original from start
      on, and the prompt asks about the original's first match there. */
  predicate Tracks(q: State, c: bytes, p: bytes, start: nat, prefix: bytes) {
    && start <= |c| && q.text == prefix + c[start..]
    && match FirstFrom(c, p, start)
       case NotFound => q.pending.NotFound?
       case At(m) => Asking(q, p) && q.pending.offset == |prefix| + m - start
  }

  /** Searching on from the end of the settled part. */
  lemma NextTracks(text: bytes, c: bytes, p: bytes, x: nat, prefix: bytes)
    requires p != [] && x <= |c| && text == prefix + c[x..]
    ensures Tracks(QueryNext(text, p, |prefix|), c, p, x, prefix)
  {
    assert text[|prefix|..] == c[x..];
    FirstFromSuffix(c, text, p, x, |prefix|, x);
  }

  /** Around the pending match. */
  lemma PendingParts(q: State, c: bytes, p: bytes, start: nat, prefix: bytes)
    requires Tracks(q, c, p, start, prefix) && q.pending.At?
    ensures FirstFrom(c, p, start).At?
    ensures var m, n := FirstFrom(c, p, start).offset, q.pending.offset;
            && start <= m && m + |p| <= |c| && n == |prefix| + m - start && q.point == n + |p| <= |q.text|
            && q.text[..n] == prefix + c[start..m] && q.text[q.point..] == c[m + |p|..]
            && q.text == prefix + c[start..m] + p + c[m + |p|..]
  {
    var m := FirstFrom(c, p, start).offset;
    assert c[start..] == c[start..m] + c[m..m + |p|] + c[m + |p|..];
  }

  /** Accepting the pending match settles the text up to the inserted one. */
  lemma AcceptTracks(q: State, c: bytes, p: bytes, t: bytes, start: nat, prefix: bytes)
    requires p != [] && Tracks(q, c, p, start, prefix) && q.pending.At?
    ensures FirstFrom(c, p, start).At?
    ensures var m := FirstFrom(c, p, start).offset;
            start <= m <= m + |p| <= |c| && Tracks(ReplaceOne(q, p, t), c, p, m + |p|, prefix + c[start..m] + t)
  {
    hide Tracks, FirstFrom, QueryNext;
    PendingParts(q, c, p, start, prefix);
    var m, n := FirstFrom(c, p, start).offset, q.pending.offset;
    SettledText(q.text, c, p, t, n, m, prefix + c[start..m]);
    NextTracks(Splice(q.text, n, |p|, t), c, p, m + |p|, prefix + c[start..m] + t);
  }

  lemma SettledText(text: bytes, c: bytes, p: bytes, t: bytes, n: nat, m: nat, settled: bytes)
    requires n + |p| <= |text| && m + |p| <= |c|
    requires text[..n] == settled && text[n + |p|..] == c[m + |p|..]
    ensures Splice(text, n, |p|, t) == settled + t + c[m + |p|..] && |settled + t| == n + |t|
  {
  }

  /** Refusing it settles the text up to the end of the match. */
  lemma RefuseTracks(q: State, c: bytes, p: bytes, start: nat, prefix: bytes)
    requires p != [] && Tracks(q, c, p, start, prefix) && q.pending.At?
    ensures FirstFrom(c, p, start).At?
    ensures var m := FirstFrom(c, p, start).offset;
            && start <= m <= m + |p| <= |c|
            && Tracks(QueryNext(q.text, p, q.point), c, p, m + |p|, prefix + c[start..m] + p)
  {
    hide Tracks;
    PendingParts(q, c, p, start, prefix);
    var m := FirstFrom(c, p, start).offset;
    NextTracks(q.text, c, p, m + |p|, prefix + c[start..m] + p);
  }

  /** Nothing more is accepted: the text from start on is unchanged. */
  lemma RebuiltEnd(c: bytes, p: bytes, t: bytes, start: nat, accepted: seq<bool>)
    requires p != [] && start <= |c| && (FirstFrom(c, p, start).NotFound? || accepted == [])
    ensures Rebuilt(c, p, t, start, accepted) == c[start..]
  {
  }

  /** One match decided. */
  lemma RebuiltStep(c: bytes, p: bytes, t: bytes, start: nat, flag: bool, rest: seq<bool>, prefix: bytes)
    requires p != [] && start <= |c| && FirstFrom(c, p, start).At?
    ensures var m := FirstFrom(c, p, start).offset;
            && m + |p| <= |c|
            && prefix + Rebuilt(c, p, t, start, [flag] + rest)
               == prefix + c[start..m] + (if flag then t else p) + Rebuilt(c, p, t, m + |p|, rest)
  {
    hide FirstFrom, Occurs;
    var m := FirstFrom(c, p, start).offset;
    RebuiltHead(c, p, t, start, flag, rest);
    hide Rebuilt;
    Associate(prefix, c[start..m], if flag then t else p, Rebuilt(c, p, t, m + |p|, rest));
  }

  lemma RebuiltHead(c: bytes, p: bytes, t: bytes, start: nat, flag: bool, rest: seq<bool>)
    requires p != [] && start <= |c| && FirstFrom(c, p, start).At?
    ensures var m := FirstFrom(c, p, start).offset;
            && m + |p| <= |c|
            && Rebuilt(c, p, t, start, [flag] + rest)
               == c[start..m] + (if flag then t else p) + Rebuilt(c, p, t, m + |p|, rest)
  {
    hide FirstFrom;
    assert ([flag] + rest)[1..] == rest;
  }

  lemma Associate(a: bytes, b: bytes, c: bytes, d: bytes)
    ensures a + (b + c + d) == a + b + c + d
  {
  }

  lemma TracksFacts(q: State, c: bytes, p: bytes, start: nat, prefix: bytes)
    requires Tracks(q, c, p, start, prefix)
    ensures start <= |c| && q.text == prefix + c[start..] && q.pending.At? == FirstFrom(c, p, start).At?
    ensures q.pending.At? ==> Asking(q, p)
  {
  }

  lemma {:induction false} RestRebuilds(q: State, c: bytes, p: bytes, t: bytes, start: nat, prefix: bytes)
    requires p != [] && Tracks(q, c, p, start, prefix) && q.pending.At? && Asking(q, p) && start <= |c|
    ensures ReplaceRest(q, p, t).text == prefix + Rebuilt(c, p, t, start, seq(|Matches(c, p, start)|, _ => true))
    decreases |q.text| - q.point
  {
    hide Tracks, Rebuilt, FirstFrom;
    TracksFacts(q, c, p, start, prefix);
    AcceptTracks(q, c, p, t, start, prefix);
    var m := FirstFrom(c, p, start).offset;
    var x, r := m + |p|, ReplaceOne(q, p, t);
    var k := |Matches(c, p, x)|;
    var flags := seq(k, _ => true);
    assert seq(k + 1, _ => true) == [true] + flags;
    RebuiltStep(c, p, t, start, true, flags, prefix);
    TracksFacts(r, c, p, x, prefix + c[start..m] + t);
    if r.pending.At? {
      RestRebuilds(r, c, p, t, x, prefix + c[start..m] + t);
    } else {
      RebuiltEnd(c, p, t, x, flags);
    }
  }

  lemma {:induction false} AnswersRebuild(q: State, c: bytes, p: bytes, t: bytes, start: nat, answers: seq<Answer>,
      prefix: bytes)
    requires p != [] && Tracks(q, c, p, start, prefix) && (q.pending.At? ==> Asking(q, p)) && start <= |c|
    ensures Answering(q, p, t, answers).text
            == prefix + Rebuilt(c, p, t, start, Accepted(|Matches(c, p, start)|, answers))
    decreases |answers|
  {
    hide Tracks, Rebuilt, FirstFrom;
    TracksFacts(q, c, p, start, prefix);
    if answers == [] || q.pending.NotFound? {
      Finished(q, p, t, answers);
      RebuiltEnd(c, p, t, start, Accepted(|Matches(c, p, start)|, answers));
    } else if answers[0] == All {
      RestRebuilds(q, c, p, t, start, prefix);
      RestEnds(q, p, t);
      Finished(Step(q, p, t, All), p, t, answers[1..]);
    } else if answers[0] == Quit {
      Finished(Step(q, p, t, Quit), p, t, answers[1..]);
      RebuiltEnd(c, p, t, start, []);
    } else {
      DecideOne(q, c, p, t, start, answers, prefix);
    }
  }

  /** The answers y and n. */
  lemma {:induction false} DecideOne(q: State, c: bytes, p: bytes, t: bytes, start: nat, answers: seq<Answer>,
      prefix: bytes)
    requires p != [] && Tracks(q, c, p, start, prefix) && q.pending.At? && Asking(q, p) && start <= |c|
    requires answers != [] && (answers[0] == Yes || answers[0] == No)
    ensures Answering(q, p, t, answers).text
            == prefix + Rebuilt(c, p, t, start, Accepted(|Matches(c, p, start)|, answers))
    decreases |answers|, 0
  {
    hide Tracks, Rebuilt, FirstFrom;
    TracksFacts(q, c, p, start, prefix);
    var rest, flag := answers[1..], answers[0] == Yes;
    var m := FirstFrom(c, p, start).offset;
    var x, r := m + |p|, Step(q, p, t, answers[0]);
    if flag {
      AcceptTracks(q, c, p, t, start, prefix);
    } else {
      RefuseTracks(q, c, p, start, prefix);
    }
    AnswersRebuild(r, c, p, t, x, rest, prefix + c[start..m] + (if flag then t else p));
    RebuiltStep(c, p, t, start, flag, Accepted(|Matches(c, p, x)|, rest), prefix);
  }

  lemma {:induction false} Finished(q: State, p: bytes, t: bytes, answers: seq<Answer>)
    requires p != [] && (answers == [] || q.pending.NotFound?) && (q.pending.At? ==> Asking(q, p))
    ensures Answering(q, p, t, answers) == q
    decreases |answers|
  {
    if answers != [] { Finished(q, p, t, answers[1..]); }
  }

  /** For every sequence of answers the final text is the original with exactly
      the accepted ones among its leftmost non-overlapping matches from the
      starting point replaced; inserted text is never searched again. */
  lemma QueryReplaceCorrect(c: bytes, p: bytes, t: bytes, point: nat, answers: seq<Answer>)
    requires p != [] && point <= |c|
    ensures Answering(QueryNext(c, p, point), p, t, answers).text
            == c[..point] + Rebuilt(c, p, t, point, Accepted(|Matches(c, p, point)|, answers))
  {
    assert c == c[..point] + c[point..];
    NextTracks(c, c, p, point, c[..point]);
    AnswersRebuild(QueryNext(c, p, point), c, p, t, point, answers, c[..point]);
  }
}
