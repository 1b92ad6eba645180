/** The multi-client server: per-peer framing and reply queues around one editor. */
module Server {
  import opened Bytes
  import opened Framing
  import opened Request
  import Json
  import Utf8
  import Transport

  const FRAME := Transport.FRAME
  const QUEUE := 4 * Transport.FRAME
  const SLOTS := 32

  // ---- What was executed ----------------------------------------------------------

  /** One executed request: the connection it came from, its line, its reply. */
  datatype Entry = Entry(conn: nat, line: bytes, reply: bytes)

  /** The requests one connection contributed to the global order. */
  function Requests(log: seq<Entry>, c: nat): seq<bytes> {
    if log == [] then []
    else
      var e := log[|log| - 1];
      Requests(log[..|log| - 1], c) + (if e.conn == c then [e.line] else [])
  }

  function Answers(log: seq<Entry>, c: nat): seq<bytes> {
    if log == [] then []
    else
      var e := log[|log| - 1];
      Answers(log[..|log| - 1], c) + (if e.conn == c then [e.reply] else [])
  }

  lemma LogSnoc(log: seq<Entry>, e: Entry, c: nat)
    ensures Requests(log + [e], c) == Requests(log, c) + (if e.conn == c then [e.line] else [])
    ensures Answers(log + [e], c) == Answers(log, c) + (if e.conn == c then [e.reply] else [])
  {
    assert (log + [e])[..|log|] == log;
  }

  lemma {:induction false} LogFresh(log: seq<Entry>, c: nat)
    requires forall k :: 0 <= k < |log| ==> log[k].conn != c
    ensures Requests(log, c) == [] && Answers(log, c) == []
  {
    if log != [] { LogFresh(log[..|log| - 1], c); }
  }

  lemma {:induction false} RequestsPrefix(log: seq<Entry>, k: nat, c: nat)
    requires k <= |log|
    ensures Requests(log[..k], c) <= Requests(log, c)
  {
    if k == |log| {
      assert log[..k] == log;
    } else {
      var p := log[..|log| - 1];
      RequestsPrefix(p, k, c);
      assert p[..k] == log[..k];
    }
  }

  /** All lines in the global order. */
  function AllLines(log: seq<Entry>): seq<bytes> {
    seq(|log|, i requires 0 <= i < |log| => log[i].line)
  }

  /** The lines were answered one after another. */
  predicate Sequential(log: seq<Entry>, editor: Editor) {
    forall k :: 0 <= k < |log| ==> log[k].reply == Reply(editor, AllLines(log[..k]), log[k].line)
  }

  lemma SequentialSnoc(log: seq<Entry>, e: Entry, editor: Editor)
    requires Sequential(log, editor) && e.reply == Reply(editor, AllLines(log), e.line)
    ensures Sequential(log + [e], editor)
  {
    var more := log + [e];
    forall k | 0 <= k < |more|
      ensures more[k].reply == Reply(editor, AllLines(more[..k]), more[k].line)
    {
      assert more[..k] == log[..k];
      assert log[..|log|] == log;
    }
  }

  // ---- Peers -----------------------------------------------------------------------

  /** A slot of the peer table; not live when fd is negative. */
  datatype Peer = Peer(live: bool, input: bytes, inCap: nat, out: bytes, outSent: nat)

  const CLOSED := Peer(false, [], 0, [], 0)

  /** Everything a connection sent and was sent. */
  datatype Traffic = Traffic(received: bytes, written: bytes)

  predicate Fits(p: Peer) {
    && p.outSent <= |p.out| && |p.out| - p.outSent <= QUEUE
    && |p.input| <= FRAME && p.inCap <= 2 * (FRAME + 1)
    && (|p.input| < p.inCap || (p.inCap == 0 && p.input == []))
  }

  function Unsent(p: Peer): bytes
    requires Fits(p)
  {
    p.out[p.outSent..]
  }

  /** The unsent bytes moved to the front, and a reply behind them. */
  function WithReply(p: Peer, reply: bytes): Peer
    requires Fits(p)
  {
    p.(out := Unsent(p) + reply + [LF], outSent := 0)
  }

  /** A peer whose buffered lines are still to be executed. */
  predicate Busy(p: Peer, c: nat, t: Traffic, log: seq<Entry>) {
    && Fits(p)
    && Lines(t.received) == Requests(log, c) + Lines(p.input)
    && Rest(t.received) == Rest(p.input)
    && t.written + Unsent(p) == Joined(Answers(log, c))
  }

  /** Between polls: exactly the complete lines were executed, and every reply
      is written or queued. */
  predicate Idle(p: Peer, c: nat, t: Traffic, log: seq<Entry>) {
    && Fits(p)
    && Lines(t.received) == Requests(log, c)
    && Rest(t.received) == p.input
    && t.written + Unsent(p) == Joined(Answers(log, c))
  }

  /** What stays true of a connection after it is closed. */
  predicate Honest(c: nat, t: Traffic, log: seq<Entry>) {
    Requests(log, c) <= Lines(t.received) && t.written <= Joined(Answers(log, c))
  }

  lemma BusyHonest(p: Peer, c: nat, t: Traffic, log: seq<Entry>)
    requires Busy(p, c, t, log)
    ensures Honest(c, t, log)
    ensures LF !in p.input ==> Idle(p, c, t, log)
  {
    hide Lines, Rest, Joined, Requests, Answers;
    if LF !in p.input {
      RestIsPlain(p.input);
      assert Requests(log, c) + [] == Requests(log, c);
    }
  }

  lemma IdleBusy(p: Peer, c: nat, t: Traffic, log: seq<Entry>)
    requires Idle(p, c, t, log)
    ensures Busy(p, c, t, log)
  {
    hide Lines, Rest, Joined, Requests, Answers;
    SplitJoins(t.received);
    RestIsPlain(p.input);
    assert Requests(log, c) + [] == Requests(log, c);
  }

  /** More bytes arrive. */
  lemma Received(p: Peer, q: Peer, c: nat, t: Traffic, log: seq<Entry>, chunk: bytes)
    requires Idle(p, c, t, log) && Fits(q)
    requires q.input == p.input + chunk && q.out == p.out && q.outSent == p.outSent
    ensures Busy(q, c, t.(received := t.received + chunk), log)
  {
    hide Lines, Rest, Joined, Requests, Answers;
    LinesConcat(t.received, chunk);
  }

  /** The first buffered line is executed and its reply queued. */
  lemma Served(p: Peer, q: Peer, t: Traffic, log: seq<Entry>, e: Entry, k: nat)
    requires Busy(p, e.conn, t, log) && Fits(q)
    requires k < |p.input| && p.input[k] == LF && LF !in p.input[..k] && e.line == p.input[..k]
    requires q.input == p.input[k + 1..] && Unsent(q) == Unsent(p) + e.reply + [LF]
    ensures Busy(q, e.conn, t, log + [e])
  {
    hide Lines, Rest, Joined, Requests, Answers;
    FirstLine(p.input, k);
    LogSnoc(log, e, e.conn);
    JoinedSnoc(Answers(log, e.conn), e.reply);
    Sum(Requests(log, e.conn), e.line, Lines(q.input));
    Tail(t.written, Unsent(p), e.reply);
  }

  lemma Sum(a: seq<bytes>, l: bytes, b: seq<bytes>)
    ensures a + ([l] + b) == a + [l] + b
  {
  }

  lemma Tail(w: bytes, u: bytes, r: bytes)
    ensures w + (u + r + [LF]) == w + u + r + [LF]
  {
  }

  /** The first buffered line was executed but its reply not queued. */
  lemma Refused(p: Peer, t: Traffic, log: seq<Entry>, e: Entry, k: nat)
    requires Busy(p, e.conn, t, log)
    requires k < |p.input| && p.input[k] == LF && LF !in p.input[..k] && e.line == p.input[..k]
    ensures Honest(e.conn, t, log + [e])
  {
    hide Lines, Rest, Joined, Requests, Answers;
    FirstLine(p.input, k);
    LogSnoc(log, e, e.conn);
    JoinedSnoc(Answers(log, e.conn), e.reply);
    Sum(Requests(log, e.conn), e.line, Lines(p.input[k + 1..]));
    Tail(t.written, Unsent(p), e.reply);
  }

  /** Another connection's request changes nothing for this one. */
  lemma Unaffected(log: seq<Entry>, e: Entry, c: nat)
    requires e.conn != c
    ensures Requests(log + [e], c) == Requests(log, c) && Answers(log + [e], c) == Answers(log, c)
  {
    LogSnoc(log, e, c);
  }

  /** n queued bytes are written. */
  lemma Sent(p: Peer, q: Peer, c: nat, t: Traffic, log: seq<Entry>, n: nat)
    requires Idle(p, c, t, log) && Fits(q) && n <= |Unsent(p)|
    requires q.input == p.input && Unsent(q) == Unsent(p)[n..]
    ensures Idle(q, c, t.(written := t.written + Unsent(p)[..n]), log)
  {
    hide Lines, Rest, Joined, Requests, Answers;
    assert t.written + Unsent(p)[..n] + Unsent(p)[n..] == t.written + Unsent(p);
  }

  /** Clients that split what they are sent at newlines read the replies to
      their requests, in order; on an open connection no reply is missing. */
  lemma ClientReads(p: Peer, c: nat, t: Traffic, log: seq<Entry>)
    requires NoNewlines(Answers(log, c))
    ensures Honest(c, t, log) ==> Lines(t.written) <= Answers(log, c)
    ensures Idle(p, c, t, log) ==> Lines(t.written + Unsent(p)) == Answers(log, c)
    ensures |Requests(log, c)| == |Answers(log, c)|
  {
    hide Lines, Rest, Joined, Requests, Answers;
    var a := Answers(log, c);
    LinesUnique(a, []);
    assert Joined(a) + [] == Joined(a);
    if Honest(c, t, log) {
      var more := Joined(a)[|t.written|..];
      assert t.written + more == Joined(a);
      LinesConcat(t.written, more);
    }
    SameLength(log, c);
  }

  lemma {:induction false} SameLength(log: seq<Entry>, c: nat)
    ensures |Requests(log, c)| == |Answers(log, c)|
  {
    if log != [] { SameLength(log[..|log| - 1], c); }
  }

  // ---- The whole table ----------------------------------------------------------------

  datatype World = World(peers: seq<Peer>, owner: seq<nat>, traffic: seq<Traffic>, log: seq<Entry>)

  predicate Shape(w: World) {
    && |w.peers| == |w.owner| == SLOTS
    && (forall i :: 0 <= i < SLOTS && !w.peers[i].live ==> w.peers[i] == CLOSED)
    && (forall i :: 0 <= i < SLOTS && w.peers[i].live ==> w.owner[i] < |w.traffic|)
    && (forall i, j :: 0 <= i < j < SLOTS && w.peers[i].live && w.peers[j].live ==> w.owner[i] != w.owner[j])
    && (forall k :: 0 <= k < |w.log| ==> w.log[k].conn < |w.traffic|)
  }

  /** Every live slot but one is idle. */
  predicate OthersIdle(w: World, b: int)
    requires Shape(w)
  {
    forall i :: 0 <= i < SLOTS && i != b && w.peers[i].live ==>
        Idle(w.peers[i], w.owner[i], w.traffic[w.owner[i]], w.log)
  }

  predicate AllHonest(w: World)
    requires Shape(w)
  {
    forall c :: 0 <= c < |w.traffic| ==> Honest(c, w.traffic[c], w.log)
  }

  /** The invariant of every run: each peer's requests are executed in its own
      order, as the lines it sent, and answered in that order; the global
      order is an interleaving of these. */
  predicate Sound(w: World, editor: Editor) {
    Shape(w) && OthersIdle(w, -1) && AllHonest(w) && Sequential(w.log, editor)
  }

  /** As Sound, while slot b is being served. */
  predicate Serving(w: World, b: nat, editor: Editor) {
    && Shape(w) && OthersIdle(w, b) && AllHonest(w) && Sequential(w.log, editor)
    && b < SLOTS && w.peers[b].live && Busy(w.peers[b], w.owner[b], w.traffic[w.owner[b]], w.log)
  }

  function WithPeer(w: World, b: nat, p: Peer): World
    requires b < |w.peers|
  {
    w.(peers := w.peers[b := p])
  }

  function WithTraffic(w: World, b: nat, t: Traffic): World
    requires b < |w.owner| && w.owner[b] < |w.traffic|
  {
    w.(traffic := w.traffic[w.owner[b] := t])
  }

  function Logged(w: World, e: Entry): World {
    w.(log := w.log + [e])
  }

  function TrafficOf(w: World, b: nat): Traffic
    requires Shape(w) && b < SLOTS && w.peers[b].live
  {
    w.traffic[w.owner[b]]
  }

  lemma WorldReceives(w: World, b: nat, q: Peer, chunk: bytes, editor: Editor)
    requires Sound(w, editor) && b < SLOTS && w.peers[b].live && Fits(q) && q.live
    requires q.input == w.peers[b].input + chunk && q.out == w.peers[b].out && q.outSent == w.peers[b].outSent
    ensures var t := TrafficOf(w, b);
            Serving(WithPeer(WithTraffic(w, b, t.(received := t.received + chunk)), b, q), b, editor)
  {
    hide Idle, Busy, Honest, Sequential, Fits;
    var t := TrafficOf(w, b);
    var u := t.(received := t.received + chunk);
    var c := w.owner[b];
    Received(w.peers[b], q, c, t, w.log, chunk);
    BusyHonest(q, c, u, w.log);
  }

  lemma WorldServes(w: World, b: nat, q: Peer, e: Entry, k: nat, editor: Editor)
    requires Serving(w, b, editor) && Fits(q) && q.live && Fits(w.peers[b])
    requires k < |w.peers[b].input| && w.peers[b].input[k] == LF && LF !in w.peers[b].input[..k]
    requires e == Entry(w.owner[b], w.peers[b].input[..k], Reply(editor, AllLines(w.log), w.peers[b].input[..k]))
    requires q.input == w.peers[b].input[k + 1..] && Unsent(q) == Unsent(w.peers[b]) + e.reply + [LF]
    ensures Serving(WithPeer(Logged(w, e), b, q), b, editor)
  {
    hide Idle, Busy, Honest, Sequential, Fits;
    var v := WithPeer(Logged(w, e), b, q);
    Served(w.peers[b], q, TrafficOf(w, b), w.log, e, k);
    BusyHonest(q, e.conn, TrafficOf(w, b), v.log);
    SequentialSnoc(w.log, e, editor);
    OthersKeep(w, v, b, e);
  }

  lemma OthersKeep(w: World, v: World, b: nat, e: Entry)
    requires Shape(w) && Shape(v) && OthersIdle(w, b) && AllHonest(w) && b < SLOTS && w.peers[b].live
    requires e.conn == w.owner[b] && v.log == w.log + [e] && v.traffic == w.traffic && v.owner == w.owner
    requires forall i :: 0 <= i < SLOTS && i != b ==> v.peers[i] == w.peers[i]
    requires Honest(e.conn, v.traffic[e.conn], v.log)
    ensures OthersIdle(v, b) && AllHonest(v)
  {
    hide Fits;
    forall i | 0 <= i < SLOTS && i != b && v.peers[i].live
      ensures Idle(v.peers[i], v.owner[i], v.traffic[v.owner[i]], v.log)
    {
      Unaffected(w.log, e, w.owner[i]);
    }
    forall c | 0 <= c < |v.traffic|
      ensures Honest(c, v.traffic[c], v.log)
    {
      if c != e.conn { Unaffected(w.log, e, c); }
    }
  }

  lemma WorldRefuses(w: World, b: nat, e: Entry, k: nat, editor: Editor)
    requires Serving(w, b, editor)
    requires k < |w.peers[b].input| && w.peers[b].input[k] == LF && LF !in w.peers[b].input[..k]
    requires e == Entry(w.owner[b], w.peers[b].input[..k], Reply(editor, AllLines(w.log), w.peers[b].input[..k]))
    ensures Sound(WithPeer(Logged(w, e), b, CLOSED), editor)
  {
    hide Idle, Busy, Honest, Sequential, Fits;
    var v := WithPeer(Logged(w, e), b, CLOSED);
    Refused(w.peers[b], TrafficOf(w, b), w.log, e, k);
    SequentialSnoc(w.log, e, editor);
    OthersKeep(w, v, b, e);
  }

  lemma WorldRests(w: World, b: nat, editor: Editor)
    requires Serving(w, b, editor) && LF !in w.peers[b].input
    ensures Sound(w, editor)
  {
    hide Idle, Busy, Honest, Sequential, Fits;
    BusyHonest(w.peers[b], w.owner[b], TrafficOf(w, b), w.log);
  }

  lemma WorldCloses(w: World, b: nat, editor: Editor)
    requires Sound(w, editor) && b < SLOTS
    ensures Sound(WithPeer(w, b, CLOSED), editor)
  {
    hide Idle, Honest, Sequential;
  }

  lemma WorldWrites(w: World, b: nat, q: Peer, n: nat, editor: Editor)
    requires Sound(w, editor) && b < SLOTS && w.peers[b].live && q.live && Fits(q) && Fits(w.peers[b])
    requires n <= |Unsent(w.peers[b])| && q.input == w.peers[b].input && Unsent(q) == Unsent(w.peers[b])[n..]
    ensures var t := TrafficOf(w, b);
            Sound(WithPeer(WithTraffic(w, b, t.(written := t.written + Unsent(w.peers[b])[..n])), b, q), editor)
  {
    hide Idle, Honest, Sequential, Fits;
    var t := TrafficOf(w, b);
    var u := t.(written := t.written + Unsent(w.peers[b])[..n]);
    var c := w.owner[b];
    Sent(w.peers[b], q, c, t, w.log, n);
    IdleBusy(q, c, u, w.log);
    BusyHonest(q, c, u, w.log);
  }

  function Accepted(w: World, b: nat): World
    requires b < |w.peers| && b < |w.owner|
  {
    World(w.peers[b := CLOSED.(live := true)], w.owner[b := |w.traffic|], w.traffic + [Traffic([], [])], w.log)
  }

  lemma WorldAccepts(w: World, b: nat, editor: Editor)
    requires Sound(w, editor) && b < SLOTS && !w.peers[b].live
    ensures Sound(Accepted(w, b), editor)
  {
    hide Sequential, Honest, Idle;
    var v := Accepted(w, b);
    LogFresh(w.log, |w.traffic|);
    NewPeer(|w.traffic|, w.log);
    forall c | 0 <= c < |v.traffic|
      ensures Honest(c, v.traffic[c], v.log)
    {
      if c < |w.traffic| { assert v.traffic[c] == w.traffic[c]; }
    }
  }

  lemma NewPeer(c: nat, log: seq<Entry>)
    requires Requests(log, c) == [] && Answers(log, c) == []
    ensures Idle(CLOSED.(live := true), c, Traffic([], []), log) && Honest(c, Traffic([], []), log)
  {
    hide Requests, Answers;
  }

  // ---- backend_server ---------------------------------------------------------------------

  /** What read returned; no data is the end of the stream. */
  datatype Got = Data(data: bytes) | NotRead(again: bool)

  /** What write returned. */
  datatype Put = Took(n: nat) | NotWritten(again: bool)

  datatype Event = Event(readable: bool, got: Got, writable: bool, put: Put, hangup: bool)

  /** One return of poll: whether a client connects and may, and what happens
      at each slot. */
  datatype Round = Round(connecting: bool, trusted: bool, events: seq<Event>)

  // ---- What one poll does to each connection ------------------------------------------------

  /** The reply bytes a connection is still owed: the replies to its executed
      requests beyond what it was written. */
  function Due(c: nat, t: Traffic, log: seq<Entry>): bytes {
    var all := Joined(Answers(log, c));
    if |t.written| <= |all| then all[|t.written|..] else []
  }

  predicate Reads(listening: bool, ev: Event) {
    listening && ev.readable
  }

  /** What was read is kept: some bytes, and no more than a frame buffered. */
  predicate Keeps(p: Peer, ev: Event) {
    Arrived(ev.got) != [] && |p.input| + |Arrived(ev.got)| <= FRAME
  }

  /** What was read was kept, and every reply fits into the queue. */
  predicate Stays(p: Peer, c: nat, t: Traffic, log: seq<Entry>, listening: bool, ev: Event) {
    (Reads(listening, ev) ==> Keeps(p, ev)) && |Due(c, t, log)| <= QUEUE
  }

  /** Every complete line received was executed; or the last one executed is the
      first whose reply did not fit into the queue. */
  predicate Executed(c: nat, t: Traffic, u: Traffic, log: seq<Entry>) {
    if |Due(c, t, log)| <= QUEUE then Requests(log, c) == Lines(u.received)
    else
      && Requests(log, c) <= Lines(u.received) && Answers(log, c) != []
      && |Joined(Answers(log, c)[..|Answers(log, c)| - 1])| <= |t.written| + QUEUE
  }

  /** What a poll does to a connection that was live before it, as its client
      sees it: what is received, what is written, which requests are executed,
      and whether it is still open. t and u are what was received and written
      before and after, was and log what was executed. */
  predicate Turned(p: Peer, live: bool, c: nat, t: Traffic, u: Traffic, was: seq<Entry>, log: seq<Entry>,
                   pending: bool, listening: bool, ev: Event) {
    var due := Due(c, t, log);
    var writes := Stays(p, c, t, log, listening, ev) && pending && ev.writable;
    && t.written <= Joined(Answers(log, c))
    && u.received == t.received + (if Reads(listening, ev) then Arrived(ev.got) else [])
    && u.written == t.written + (if writes && ev.put.Took? then due[..Min(ev.put.n, |due|)] else [])
    && (Reads(listening, ev) && Keeps(p, ev) ==> Executed(c, t, u, log))
    && (!(Reads(listening, ev) && Keeps(p, ev)) ==> SameEntries(c, was, log))
    && live == (if Reads(listening, ev) && !Keeps(p, ev) then ev.got == NotRead(true)
                else |due| <= QUEUE && !(writes && ev.put == NotWritten(false)) && !ev.hangup)
  }

  predicate SameEntries(c: nat, was: seq<Entry>, log: seq<Entry>) {
    Requests(log, c) == Requests(was, c) && Answers(log, c) == Answers(was, c)
  }

  /** What an open connection is owed is what its queue holds. */
  lemma DueIsQueued(w: World, i: nat, editor: Editor)
    requires Sound(w, editor) && i < SLOTS && w.peers[i].live
    ensures var p, c, t := w.peers[i], w.owner[i], TrafficOf(w, i);
            && Fits(p) && Due(c, t, w.log) == Unsent(p) && |Unsent(p)| <= QUEUE
            && Executed(c, t, t, w.log) && t.written <= Joined(Answers(w.log, c))
  {
    hide Lines, Rest, Joined, Requests, Answers, Sequential;
    var p, c, t := w.peers[i], w.owner[i], TrafficOf(w, i);
    assert Idle(p, c, t, w.log);
    PrefixCut(t.written, Unsent(p));
  }

  /** How one slot's turn changes the table: nothing but that slot, its
      connection's record, and requests of that connection. */
  predicate TurnOf(s: World, v: World, i: nat, polled: Peer, listening: bool, ev: Event)
    requires Shape(s) && Shape(v) && i < SLOTS
  {
    if !s.peers[i].live || !polled.live then v == s
    else
      var c := s.owner[i];
      && s.log <= v.log && v.owner == s.owner && v.peers == s.peers[i := v.peers[i]]
      && |v.traffic| == |s.traffic| && v.traffic == s.traffic[c := v.traffic[c]]
      && (forall k :: |s.log| <= k < |v.log| ==> v.log[k].conn == c)
      && Turned(s.peers[i], v.peers[i].live, c, s.traffic[c], v.traffic[c], s.log, v.log,
                polled.outSent < |polled.out|, listening, ev)
  }

  lemma TurnTaken(s: World, v: World, i: nat, polled: Peer, listening: bool, ev: Event)
    requires Shape(s) && Shape(v) && i < SLOTS
    requires s.log <= v.log && v.owner == s.owner && v.peers == s.peers[i := v.peers[i]]
    requires !(s.peers[i].live && polled.live) ==> v == s
    requires var c := s.owner[i];
             s.peers[i].live && polled.live ==>
             && |v.traffic| == |s.traffic| && v.traffic == s.traffic[c := v.traffic[c]]
             && (forall k :: |s.log| <= k < |v.log| ==> v.log[k].conn == c)
             && Turned(s.peers[i], v.peers[i].live, c, s.traffic[c], v.traffic[c], s.log, v.log,
                       polled.outSent < |polled.out|, listening, ev)
    ensures TurnOf(s, v, i, polled, listening, ev)
  {
    hide Turned;
  }

  /** The slot of an open connection; none when it is closed. */
  ghost function SlotOf(w: World, c: nat): (i: nat)
    requires Shape(w)
    ensures i <= SLOTS && (i < SLOTS ==> w.peers[i].live && w.owner[i] == c)
    ensures i == SLOTS ==> forall k :: 0 <= k < SLOTS && w.peers[k].live ==> w.owner[k] != c
  {
    if k: nat :| k < SLOTS && w.peers[k].live && w.owner[k] == c then k else SLOTS
  }

  /** What poll reported for slot i was done to its connection. */
  predicate SlotTurned(w: World, v: World, i: nat, round: Round, listening: bool)
    requires Shape(w) && Shape(v) && i < SLOTS && |round.events| == SLOTS
    requires w.peers[i].live && |w.traffic| <= |v.traffic|
  {
    var p, c := w.peers[i], w.owner[i];
    Turned(p, v.peers[i].live, c, w.traffic[c], v.traffic[c], w.log, v.log,
           p.outSent < |p.out|, listening, round.events[i])
  }

  /** Only requests of connections below slot n were executed, slot by slot. */
  ghost predicate InSlotOrder(w: World, v: World, n: nat)
    requires Shape(w)
  {
    && w.log <= v.log
    && (forall k :: |w.log| <= k < |v.log| ==> SlotOf(w, v.log[k].conn) < n)
    && (forall k, l :: |w.log| <= k < l < |v.log| ==> SlotOf(w, v.log[k].conn) <= SlotOf(w, v.log[l].conn))
  }

  /** A client that connects and may takes the first free slot, with nothing
      buffered or queued; every other free slot stays free. */
  predicate ClientTook(w: World, v: World, i: nat, round: Round)
    requires Shape(w) && Shape(v) && i < SLOTS
  {
    if round.connecting && round.trusted && forall k :: 0 <= k < i ==> w.peers[k].live then
      && v.peers[i] == Peer(true, [], 0, [], 0) && v.owner[i] == |w.traffic|
      && v.traffic[|w.traffic|..] == [Traffic([], [])]
    else !v.peers[i].live
  }

  predicate HasFree(w: World)
    requires Shape(w)
  {
    exists i :: 0 <= i < SLOTS && !w.peers[i].live
  }

  /** One iteration of the loop: what poll reported is done to each connection
      open before it, in the order of the slots; a new client is let in; the
      record of every other connection stays. */
  ghost predicate Polled(w: World, v: World, round: Round, listening: bool)
    requires Shape(w) && Shape(v) && |round.events| == SLOTS
  {
    && |v.traffic| == |w.traffic| + (if round.connecting && round.trusted && HasFree(w) then 1 else 0)
    && (forall i :: 0 <= i < SLOTS && w.peers[i].live ==>
          v.owner[i] == w.owner[i] && SlotTurned(w, v, i, round, listening))
    && (forall i :: 0 <= i < SLOTS && !w.peers[i].live ==> ClientTook(w, v, i, round))
    && (forall c :: 0 <= c < |w.traffic| && SlotOf(w, c) == SLOTS ==> v.traffic[c] == w.traffic[c])
    && InSlotOrder(w, v, SLOTS)
  }

  /** The states of the loop, one iteration after another. The slots are read
      exactly while the editor has not quit. */
  ghost predicate Run(worlds: seq<World>, rounds: seq<Round>, quits: seq<bytes> -> bool)
    requires forall k :: 0 <= k < |rounds| ==> |rounds[k].events| == SLOTS
  {
    && 0 < |worlds| <= |rounds| + 1
    && (forall k :: 0 <= k < |worlds| ==> Shape(worlds[k]))
    && forall k :: 1 <= k < |worlds| ==> Iteration(worlds[k - 1], worlds[k], rounds[k - 1], quits)
  }

  ghost predicate Iteration(w: World, v: World, round: Round, quits: seq<bytes> -> bool)
    requires Shape(w) && Shape(v) && |round.events| == SLOTS
  {
    Polled(w, v, round, !quits(Reached(AllLines(w.log))))
  }

  /** The editor has quit and every open connection was sent every reply. */
  predicate Done(w: World, quits: seq<bytes> -> bool)
    requires Shape(w)
  {
    && quits(Reached(AllLines(w.log)))
    && forall i :: 0 <= i < SLOTS && w.peers[i].live ==>
         w.traffic[w.owner[i]].written == Joined(Answers(w.log, w.owner[i]))
  }

  lemma DoneIs(w: World, quits: seq<bytes> -> bool, pending: bool, editor: Editor)
    requires Sound(w, editor) && Shape(w)
    requires pending <==> exists i :: 0 <= i < SLOTS && w.peers[i].outSent < |w.peers[i].out|
    ensures Done(w, quits) <==> quits(Reached(AllLines(w.log))) && !pending
  {
    hide Lines, Rest, Joined, Answers, Requests, Sequential, Honest, Reached;
    forall i | 0 <= i < SLOTS && w.peers[i].live
      ensures var p, c := w.peers[i], w.owner[i];
              w.traffic[c].written == Joined(Answers(w.log, c)) <==> p.outSent >= |p.out|
    {
      var p, c := w.peers[i], w.owner[i];
      assert Idle(p, c, w.traffic[c], w.log);
      if p.outSent >= |p.out| { assert w.traffic[c].written + Unsent(p) == w.traffic[c].written; }
    }
    if pending {
      var i :| 0 <= i < SLOTS && w.peers[i].outSent < |w.peers[i].out|;
      assert w.peers[i].live;
    }
  }

  lemma RunStarts(w: World, rounds: seq<Round>, quits: seq<bytes> -> bool)
    requires forall k :: 0 <= k < |rounds| ==> |rounds[k].events| == SLOTS
    requires Shape(w)
    ensures Run([w], rounds, quits)
  {
    hide Iteration, Shape;
  }

  lemma RunOn(worlds: seq<World>, rounds: seq<Round>, quits: seq<bytes> -> bool, w: World, v: World)
    requires forall k :: 0 <= k < |rounds| ==> |rounds[k].events| == SLOTS
    requires Run(worlds, rounds, quits) && |worlds| <= |rounds| && Shape(w) && Shape(v)
    requires w == worlds[|worlds| - 1] && Iteration(w, v, rounds[|worlds| - 1], quits)
    ensures Run(worlds + [v], rounds, quits)
  {
    hide Polled, Iteration, Shape;
  }

  /** Nothing executed, received or written is ever taken back. */
  predicate Grows(w: World, v: World) {
    && w.log <= v.log && |w.traffic| <= |v.traffic|
    && forall c :: 0 <= c < |w.traffic| ==> Extends(w.traffic[c], v.traffic[c])
  }

  predicate Extends(t: Traffic, u: Traffic) {
    t.received <= u.received && t.written <= u.written
  }

  lemma PolledGrows(w: World, v: World, round: Round, listening: bool)
    requires Shape(w) && Shape(v) && |round.events| == SLOTS && Polled(w, v, round, listening)
    ensures Grows(w, v)
  {
    hide Requests, Answers, Joined, Lines, Due, Executed;
    forall c | 0 <= c < |w.traffic|
      ensures Extends(w.traffic[c], v.traffic[c])
    {
      var i := SlotOf(w, c);
      if i < SLOTS { assert SlotTurned(w, v, i, round, listening); }
    }
  }

  lemma {:induction false} RunGrows(worlds: seq<World>, rounds: seq<Round>, quits: seq<bytes> -> bool, j: nat, k: nat)
    requires forall n :: 0 <= n < |rounds| ==> |rounds[n].events| == SLOTS
    requires Run(worlds, rounds, quits) && j <= k < |worlds|
    ensures Grows(worlds[j], worlds[k])
    decreases k
  {
    hide Polled, Reached, Shape;
    if j < k {
      RunGrows(worlds, rounds, quits, j, k - 1);
      var w, v := worlds[k - 1], worlds[k];
      assert Iteration(w, v, rounds[k - 1], quits);
      PolledGrows(w, v, rounds[k - 1], !quits(Reached(AllLines(w.log))));
    }
  }

  // The turns so far: w is the table as poll saw it, a the one with the new
  // client, s the one after the turns of the first n slots.

  function Offered(w: World, round: Round): World
    requires Shape(w)
  {
    var slot := FirstFree(w.peers, 0);
    if round.connecting && round.trusted && slot < SLOTS then Accepted(w, slot) else w
  }

  predicate Untouched(w: World, s: World, i: nat)
    requires Shape(w) && Shape(s) && i < SLOTS && w.peers[i].live && |w.traffic| <= |s.traffic|
  {
    var c := w.owner[i];
    s.peers[i] == w.peers[i] && s.traffic[c] == w.traffic[c] && SameEntries(c, w.log, s.log)
  }

  ghost predicate Progress(w: World, a: World, s: World, n: nat, round: Round, listening: bool)
    requires Shape(w) && Shape(a) && Shape(s) && n <= SLOTS && |round.events| == SLOTS
  {
    && s.owner == a.owner && |s.traffic| == |a.traffic| && |w.traffic| <= |a.traffic|
    && (forall i :: 0 <= i < SLOTS && w.peers[i].live ==> s.owner[i] == w.owner[i])
    && (forall i :: 0 <= i < SLOTS && !w.peers[i].live ==> s.peers[i] == a.peers[i])
    && (forall i :: n <= i < SLOTS && w.peers[i].live ==> Untouched(w, s, i))
    && (forall i :: 0 <= i < n && w.peers[i].live ==> SlotTurned(w, s, i, round, listening))
    && (forall c :: 0 <= c < |a.traffic| && SlotOf(w, c) == SLOTS ==> s.traffic[c] == a.traffic[c])
    && InSlotOrder(w, s, n)
  }

  lemma OfferedIs(w: World, a: World, round: Round)
    requires Shape(w)
    requires var slot := FirstFree(w.peers, 0);
             a == if round.connecting && round.trusted && slot < SLOTS then Accepted(w, slot) else w
    ensures a == Offered(w, round)
  {
  }

  lemma SlotOfLive(w: World, i: nat)
    requires Shape(w) && i < SLOTS && w.peers[i].live
    ensures SlotOf(w, w.owner[i]) == i
  {
  }

  lemma ProgressStarts(w: World, round: Round, listening: bool)
    requires Shape(w) && Shape(Offered(w, round)) && |round.events| == SLOTS
    ensures Progress(w, Offered(w, round), Offered(w, round), 0, round, listening)
  {
    hide Requests, Answers, Turned, SlotOf;
  }

  /** Requests of other connections leave a connection's alone. */
  lemma {:induction false} OthersEntries(was: seq<Entry>, log: seq<Entry>, c: nat)
    requires was <= log && forall k :: |was| <= k < |log| ==> log[k].conn != c
    ensures SameEntries(c, was, log)
  {
    if |log| == |was| {
      assert was == log;
    } else {
      var p := log[..|log| - 1];
      OthersEntries(was, p, c);
      assert log == p + [log[|p|]];
      LogSnoc(p, log[|p|], c);
    }
  }

  lemma TurnedSame(p: Peer, live: bool, c: nat, t: Traffic, u: Traffic, was: seq<Entry>, log: seq<Entry>,
                   was2: seq<Entry>, log2: seq<Entry>, pending: bool, listening: bool, ev: Event)
    requires Turned(p, live, c, t, u, was, log, pending, listening, ev)
    requires SameEntries(c, was2, was) && SameEntries(c, log, log2)
    ensures Turned(p, live, c, t, u, was2, log2, pending, listening, ev)
  {
    hide Requests, Answers, Joined, Lines;
  }

  lemma ProgressSlot(w: World, a: World, s: World, v: World, n: nat, i: nat, round: Round, listening: bool)
    requires Shape(w) && Shape(a) && Shape(s) && Shape(v) && n < SLOTS && |round.events| == SLOTS
    requires Progress(w, a, s, n, round, listening) && w.peers[n].live && i < SLOTS && w.peers[i].live
    requires TurnOf(s, v, n, w.peers[n], listening, round.events[n])
    ensures i > n ==> Untouched(w, v, i)
    ensures i <= n ==> SlotTurned(w, v, i, round, listening)
  {
    hide Requests, Answers, Turned, SlotOf, InSlotOrder;
    var p, c, ev := w.peers[i], w.owner[i], round.events[i];
    if i == n {
      assert Untouched(w, s, n);
      assert SameEntries(c, v.log, v.log);
      TurnedSame(p, v.peers[i].live, c, w.traffic[c], v.traffic[c], s.log, v.log, w.log, v.log,
                 p.outSent < |p.out|, listening, ev);
    } else {
      assert w.owner[n] != c && s.owner[n] == w.owner[n];
      OthersEntries(s.log, v.log, c);
      if i < n {
        assert SameEntries(c, w.log, w.log);
        TurnedSame(p, v.peers[i].live, c, w.traffic[c], v.traffic[c], w.log, s.log, w.log, v.log,
                   p.outSent < |p.out|, listening, ev);
      } else {
        assert Untouched(w, s, i);
      }
    }
  }

  lemma OrderStep(w: World, s: World, v: World, n: nat)
    requires Shape(w) && InSlotOrder(w, s, n) && n < SLOTS && w.peers[n].live && s.log <= v.log
    requires forall k :: |s.log| <= k < |v.log| ==> v.log[k].conn == w.owner[n]
    ensures InSlotOrder(w, v, n + 1)
  {
    hide SlotOf, Shape;
    SlotOfLive(w, n);
    forall k | |w.log| <= k < |v.log|
      ensures SlotOf(w, v.log[k].conn) <= n && (k < |s.log| ==> SlotOf(w, v.log[k].conn) < n)
    {
      if k < |s.log| { assert v.log[k] == s.log[k]; }
    }
    forall k, l | |w.log| <= k < l < |v.log|
      ensures SlotOf(w, v.log[k].conn) <= SlotOf(w, v.log[l].conn)
    {
      if l < |s.log| { assert v.log[k] == s.log[k] && v.log[l] == s.log[l]; }
    }
  }

  lemma ProgressStep(w: World, a: World, s: World, v: World, n: nat, round: Round, listening: bool)
    requires Shape(w) && Shape(a) && Shape(s) && Shape(v) && n < SLOTS && |round.events| == SLOTS
    requires Progress(w, a, s, n, round, listening)
    requires TurnOf(s, v, n, w.peers[n], listening, round.events[n])
    ensures Progress(w, a, v, n + 1, round, listening)
  {
    hide Requests, Answers, Turned, SlotOf, InSlotOrder, Untouched, SlotTurned;
    if w.peers[n].live {
      LiveStep(w, s, n, round, listening, a);
      forall i | 0 <= i < SLOTS && w.peers[i].live
        ensures i > n ==> Untouched(w, v, i)
        ensures i <= n ==> SlotTurned(w, v, i, round, listening)
      {
        ProgressSlot(w, a, s, v, n, i, round, listening);
      }
      OrderStep(w, s, v, n);
      SlotOfLive(w, n);
    } else {
      OrderWider(w, s, n);
    }
  }

  lemma LiveStep(w: World, s: World, n: nat, round: Round, listening: bool, a: World)
    requires Shape(w) && Shape(a) && Shape(s) && n < SLOTS && |round.events| == SLOTS
    requires Progress(w, a, s, n, round, listening) && w.peers[n].live
    ensures s.peers[n] == w.peers[n] && s.owner[n] == w.owner[n]
  {
    hide Requests, Answers, Turned, SlotOf, InSlotOrder, SlotTurned;
    assert Untouched(w, s, n);
  }

  lemma OrderWider(w: World, s: World, n: nat)
    requires Shape(w) && InSlotOrder(w, s, n)
    ensures InSlotOrder(w, s, n + 1)
  {
    hide SlotOf;
  }

  lemma ProgressEnds(w: World, v: World, round: Round, listening: bool)
    requires Shape(w) && Shape(v) && Shape(Offered(w, round)) && |round.events| == SLOTS
    requires Progress(w, Offered(w, round), v, SLOTS, round, listening)
    ensures Polled(w, v, round, listening)
  {
    hide Requests, Answers, Turned, SlotOf, InSlotOrder, SlotTurned;
  }

  /** The record of any connection holds no more than the replies to it. */
  lemma WrittenIsDue(w: World, c: nat, editor: Editor)
    requires Sound(w, editor) && c < |w.traffic|
    ensures w.traffic[c].written <= Joined(Answers(w.log, c))
  {
    hide Lines, Rest, Joined, Requests, Answers, Sequential, Idle;
    assert Honest(c, w.traffic[c], w.log);
  }

  lemma DueOfWritten(c: nat, t: Traffic, u: Traffic, log: seq<Entry>)
    requires t.written == u.written
    ensures Due(c, t, log) == Due(c, u, log)
  {
  }

  /** A turn that ends at the read. */
  lemma SkippedTurn(p: Peer, live: bool, c: nat, t: Traffic, u: Traffic, log: seq<Entry>,
                    pending: bool, listening: bool, ev: Event)
    requires Reads(listening, ev) && !Keeps(p, ev) && t.written <= Joined(Answers(log, c))
    requires u == t.(received := t.received + Arrived(ev.got)) && live == (ev.got == NotRead(true))
    ensures Turned(p, live, c, t, u, log, log, pending, listening, ev)
  {
    hide Joined, Answers, Requests, Lines, Executed, Due;
    assert t.written + [] == t.written;
  }

  predicate AnsweredTo(c: nat, t: Traffic, u: Traffic, log: seq<Entry>, pending: bool, ev: Event) {
    var due := Due(c, t, log);
    u == if pending && ev.writable then t.(written := t.written + due[..Taken(ev.put, due)]) else t
  }

  /** A turn that goes on to write; m is what was received and written in between. */
  lemma FinishedTurn(p: Peer, live: bool, c: nat, t: Traffic, m: Traffic, u: Traffic, was: seq<Entry>,
                     log: seq<Entry>, pending: bool, listening: bool, ev: Event)
    requires Reads(listening, ev) ==> Keeps(p, ev) && Executed(c, t, m, log)
    requires !Reads(listening, ev) ==> was == log
    requires t.written <= Joined(Answers(log, c))
    requires m == t.(received := t.received + (if Reads(listening, ev) then Arrived(ev.got) else []))
    requires if |Due(c, t, log)| <= QUEUE then AnsweredTo(c, m, u, log, pending, ev) else u == m
    requires var failed := pending && ev.writable && ev.put == NotWritten(false);
             live == (|Due(c, t, log)| <= QUEUE && !failed && !ev.hangup)
    ensures Turned(p, live, c, t, u, was, log, pending, listening, ev)
  {
    hide Joined, Answers, Requests, Lines, Due;
    DueOfWritten(c, t, m, log);
    assert t.received + [] == t.received && t.written + [] == t.written;
  }

  lemma PrefixCut(a: bytes, b: bytes)
    ensures a <= a + b && (a + b)[|a|..] == b
  {
  }

  /** A reply that does not fit leaves more due than the queue may hold. */
  lemma Overflows(p: Peer, t: Traffic, log: seq<Entry>, e: Entry)
    requires Busy(p, e.conn, t, log) && |Unsent(p)| + |e.reply| + 1 > QUEUE
    requires Honest(e.conn, t, log + [e])
    ensures |Due(e.conn, t, log + [e])| > QUEUE && Executed(e.conn, t, t, log + [e])
  {
    hide Lines, Rest, Joined, Requests, Answers;
    var a := Answers(log, e.conn);
    LogSnoc(log, e, e.conn);
    JoinedSnoc(a, e.reply);
    assert (a + [e.reply])[..|a + [e.reply]| - 1] == a;
    assert |t.written| + |Unsent(p)| == |Joined(a)|;
  }

  class Backend {
    const peers: array<Peer>
    const editor: Editor
    const quits: seq<bytes> -> bool
    /** The editor, as the requests it has executed. */
    var log: seq<Entry>
    /** The connection in each slot, and the number of connections so far. */
    var owner: seq<nat>
    var connections: nat
    ghost var traffic: seq<Traffic>

    ghost function State(): World
      reads this, peers
    {
      World(peers[..], owner, traffic, log)
    }

    ghost predicate Valid()
      reads this, peers
    {
      Sound(State(), editor) && connections == |traffic|
    }

    constructor (editor: Editor, quits: seq<bytes> -> bool)
      ensures Valid() && log == [] && traffic == [] && fresh(peers)
      ensures this.editor == editor && this.quits == quits
    {
      this.editor, this.quits := editor, quits;
      log, connections, traffic := [], 0, [];
      owner := seq(SLOTS, _ => 0);
      peers := new Peer[SLOTS](_ => CLOSED);
    }

    method Set(i: nat, p: Peer)
      requires i < peers.Length
      modifies peers
      ensures peers[..] == old(peers[..])[i := p]
    {
      peers[i] := p;
    }

    /** peer_queue: refuses rather than let more than four frames wait. */
    method Queue(i: nat, reply: bytes) returns (ok: bool)
      requires i < peers.Length && Fits(peers[i])
      modifies peers
      ensures ok == (|Unsent(old(peers[i]))| + |reply| + 1 <= QUEUE)
      ensures !ok ==> peers[..] == old(peers[..])
      ensures ok ==> peers[..] == old(peers[..])[i := WithReply(old(peers[i]), reply)]
    {
      var p := peers[i];
      var pending := |p.out| - p.outSent;
      if pending + |reply| + 1 > QUEUE { return false; }
      if p.outSent != 0 { p := p.(out := p.out[p.outSent..], outSent := 0); }
      Set(i, p.(out := p.out + reply + [LF]));
      return true;
    }

    method Execute(i: nat, line: bytes) returns (reply: bytes)
      requires i < |owner|
      modifies `log
      ensures reply == Reply(editor, AllLines(old(log)), line) && log == old(log) + [Entry(owner[i], line, reply)]
    {
      reply := Parse(editor, AllLines(log), line);
      log := log + [Entry(owner[i], line, reply)];
    }

    /** Executes the buffered lines of a peer one after another; a reply that
        cannot be queued closes the connection. */
    method Drain(i: nat)
      requires Serving(State(), i, editor) && connections == |traffic|
      modifies peers, `log
      ensures Valid() && old(log) <= log && peers[..] == old(peers[..])[i := peers[i]]
      ensures forall k :: |old(log)| <= k < |log| ==> log[k].conn == owner[i]
      ensures Executed(owner[i], traffic[owner[i]], traffic[owner[i]], log)
      ensures peers[i].live == (|Due(owner[i], traffic[owner[i]], log)| <= QUEUE)
    {
      hide Sound, Serving, Fits, Executed, Due;
      ServingSlot(State(), i, editor);
      while true
        invariant Serving(State(), i, editor) && i < peers.Length && i < |owner|
        invariant old(log) <= log && peers[..] == old(peers[..])[i := peers[i]]
        invariant forall k :: |old(log)| <= k < |log| ==> log[k].conn == owner[i]
        decreases |peers[i].input|
      {
        ghost var w := State();
        ServingSlot(w, i, editor);
        var p := peers[i];
        var k := FindNewline(p.input);
        if k == |p.input| {
          assert p.input[..k] == p.input;
          WorldRests(w, i, editor);
          DueIsQueued(w, i, editor);
          return;
        }
        var reply := Execute(i, p.input[..k]);
        ghost var e := Entry(owner[i], p.input[..k], reply);
        var ok := Queue(i, reply);
        if !ok {
          Set(i, CLOSED);
          WorldRefuses(w, i, e, k, editor);
          assert State() == WithPeer(Logged(w, e), i, CLOSED);
          ServingOverflows(w, i, e, editor);
          return;
        }
        var q := peers[i].(input := p.input[k + 1..]);
        Set(i, q);
        ServedFits(p, q, k, reply);
        WorldServes(w, i, q, e, k, editor);
        assert State() == WithPeer(Logged(w, e), i, q);
      }
    }

    method Close(i: nat)
      requires Valid() && i < SLOTS
      modifies peers
      ensures Valid() && State() == WithPeer(old(State()), i, CLOSED)
    {
      hide Sound;
      SoundShape(State(), editor);
      ghost var w := State();
      Set(i, CLOSED);
      WorldCloses(w, i, editor);
      assert State() == WithPeer(w, i, CLOSED);
    }

    ghost method Note(i: nat, t: Traffic)
      requires i < |owner| && owner[i] < |traffic|
      modifies `traffic
      ensures traffic == old(traffic)[owner[i] := t]
    {
      traffic := traffic[owner[i] := t];
    }

    /** The POLLIN branch. The connection is closed at the end of its stream, on
        a hard error, or when more than a frame would be buffered; what arrived
        is recorded either way. False skips the rest of the slot's turn. */
    method Read(i: nat, got: Got) returns (on: bool)
      requires Valid() && i < SLOTS && peers[i].live
      modifies peers, `log, `traffic
      ensures Valid() && old(log) <= log && peers[..] == old(peers[..])[i := peers[i]]
      ensures forall k :: |old(log)| <= k < |log| ==> log[k].conn == owner[i]
      ensures var t := TrafficOf(old(State()), i);
              traffic == old(traffic)[owner[i] := t.(received := t.received + Arrived(got))]
      ensures on == (Arrived(got) != [] && |old(peers[i]).input| + |Arrived(got)| <= FRAME)
      ensures on ==> Executed(owner[i], old(traffic[owner[i]]), traffic[owner[i]], log)
      ensures on ==> peers[i].live == (|Due(owner[i], old(traffic[owner[i]]), log)| <= QUEUE)
      ensures !on ==> log == old(log)
      ensures !on && got == NotRead(true) ==> peers[..] == old(peers[..])
      ensures !on && got != NotRead(true) ==> peers[..] == old(peers[..])[i := CLOSED]
    {
      hide Sound, Serving, Fits, Idle, Executed, Due;
      ghost var w := State();
      SoundShape(w, editor);
      ghost var t := TrafficOf(w, i);
      var data := Arrived(got);
      if data == [] {
        if got != NotRead(true) { Close(i); }
        assert t.received + [] == t.received && t.(received := t.received) == t;
        assert traffic[owner[i] := t] == traffic;
        return false;
      }
      var p := peers[i];
      SoundFits(w, i, editor);
      if |p.input| + |data| > FRAME {
        Close(i);
        LateBytes(State(), owner[i], data, editor);
        Note(i, t.(received := t.received + data));
        return false;
      }
      var more := |p.input| + |data| + 1;
      var q := p.(input := p.input + data, inCap := if more > p.inCap then more * 2 else p.inCap);
      ReadFits(p, q, data);
      WorldReceives(w, i, q, data, editor);
      Note(i, t.(received := t.received + data));
      Set(i, q);
      assert State() == WithPeer(WithTraffic(w, i, t.(received := t.received + data)), i, q);
      Drain(i);
      DueOfReceived(owner[i], t, data, log);
      return true;
    }

    /** The POLLOUT branch: write takes a prefix of what is queued. */
    method WriteOut(i: nat, put: Put)
      requires Valid() && i < SLOTS && peers[i].live
      modifies peers, `traffic
      ensures Valid()
      ensures var t, u := TrafficOf(old(State()), i), Unsent(old(peers[i]));
              traffic == old(traffic)[owner[i] := t.(written := t.written + u[..Taken(put, u)])]
      ensures peers[..] == old(peers[..])[i := peers[i]]
      ensures put == NotWritten(false) ==> peers[i] == CLOSED
      ensures put != NotWritten(false) ==> peers[i].live && peers[i].input == old(peers[i].input) && Fits(peers[i])
      ensures var u := Unsent(old(peers[i])); put != NotWritten(false) ==> Unsent(peers[i]) == u[Taken(put, u)..]
    {
      hide Sound, Fits, Idle;
      ghost var w := State();
      SoundShape(w, editor);
      SoundFits(w, i, editor);
      ghost var t := TrafficOf(w, i);
      var p := peers[i];
      var n := if put.Took? then Min(put.n, |p.out| - p.outSent) else 0;
      UnsentLength(p);
      if n > 0 {
        var q := p.(outSent := p.outSent + n);
        if q.outSent == |q.out| { q := q.(out := [], outSent := 0); }
        WriteFits(p, q, n);
        WorldWrites(w, i, q, n, editor);
        Note(i, t.(written := t.written + Unsent(p)[..n]));
        Set(i, q);
        assert State() == WithPeer(WithTraffic(w, i, t.(written := t.written + Unsent(p)[..n])), i, q);
      } else {
        if put == NotWritten(false) { Close(i); }
        assert t.written + Unsent(p)[..0] == t.written && t.(written := t.written) == t;
        assert traffic[owner[i] := t] == traffic;
      }
    }

    /** A trusted client takes the first free slot, if there is one. */
    method Accept(trusted: bool)
      requires Valid()
      modifies peers, `owner, `connections, `traffic
      ensures Valid()
      ensures var slot := FirstFree(old(peers[..]), 0);
              State() == if trusted && slot < SLOTS then Accepted(old(State()), slot) else old(State())
    {
      hide Sound, FirstFree;
      ghost var w := State();
      SoundShape(w, editor);
      var slot := FirstFree(peers[..], 0);
      if trusted && slot < SLOTS {
        WorldAccepts(w, slot, editor);
        Set(slot, CLOSED.(live := true));
        NewConnection(slot);
        assert State() == Accepted(w, slot);
      }
    }

    method NewConnection(slot: nat)
      requires slot < |owner| && connections == |traffic|
      modifies `owner, `connections, `traffic
      ensures connections == |traffic| && traffic == old(traffic) + [Traffic([], [])]
      ensures owner == old(owner)[slot := |old(traffic)|]
    {
      owner := owner[slot := connections];
      connections := connections + 1;
      traffic := traffic + [Traffic([], [])];
    }

    /** The rest of a turn: POLLOUT when poll was asked for it, then a hangup. */
    method WriteBack(i: nat, pending: bool, ev: Event)
      requires Valid() && i < SLOTS
      modifies peers, `traffic
      ensures Valid() && peers[..] == old(peers[..])[i := peers[i]]
      ensures !old(peers[i].live) ==> State() == old(State())
      ensures old(peers[i].live) ==> traffic == old(traffic)[owner[i] := traffic[owner[i]]]
      ensures old(peers[i].live) ==> AnsweredTo(owner[i], old(traffic[owner[i]]), traffic[owner[i]], log, pending, ev)
      ensures var failed := pending && ev.writable && ev.put == NotWritten(false);
              old(peers[i].live) ==> peers[i].live == (!failed && !ev.hangup)
    {
      hide Sound, Fits, Idle, Executed, Due, Honest;
      ghost var w := State();
      SoundShape(w, editor);
      if !peers[i].live { return; }
      DueIsQueued(w, i, editor);
      if pending && ev.writable { WriteOut(i, ev.put); }
      if peers[i].live && ev.hangup { Close(i); }
    }

    /** One slot's turn after poll returned; polled is the slot as poll saw it. */
    method Turn(i: nat, polled: Peer, listening: bool, ev: Event)
      requires Valid() && i < SLOTS
      modifies peers, `log, `traffic
      ensures Valid() && old(log) <= log && peers[..] == old(peers[..])[i := peers[i]]
      ensures forall k :: |old(log)| <= k < |log| ==> log[k].conn == owner[i]
      ensures !(old(peers[i].live) && polled.live) ==> State() == old(State())
      ensures old(peers[i].live) && polled.live ==> traffic == old(traffic)[owner[i] := traffic[owner[i]]]
      ensures old(peers[i].live) && polled.live ==> Turned(
        old(peers[i]), peers[i].live, owner[i], old(traffic[owner[i]]), traffic[owner[i]],
        old(log), log, polled.outSent < |polled.out|, listening, ev)
    {
      hide Sound, Fits, Idle, Turned, Executed, Due;
      ghost var w := State();
      SoundShape(w, editor);
      if !peers[i].live || !polled.live { return; }
      DueIsQueued(w, i, editor);
      ghost var c, t, pending := owner[i], TrafficOf(w, i), polled.outSent < |polled.out|;
      if listening && ev.readable {
        var keeps := Read(i, ev.got);
        if !keeps {
          SkippedTurn(w.peers[i], peers[i].live, c, t, traffic[c], log, pending, listening, ev);
          return;
        }
      }
      ghost var v := State();
      SoundShape(v, editor);
      WrittenIsDue(v, c, editor);
      DueOfWritten(c, t, traffic[c], log);
      WriteBack(i, polled.outSent < |polled.out|, ev);
      FinishedTurn(w.peers[i], peers[i].live, c, t, v.traffic[c], traffic[c], w.log, log, pending, listening, ev);
    }

    /** One iteration of the server's loop. */
    method Poll(round: Round)
      requires Valid() && |round.events| == SLOTS
      modifies peers, `log, `owner, `connections, `traffic
      ensures Valid() && Polled(old(State()), State(), round, !old(quits(Reached(AllLines(log)))))
    {
      hide Sound, FirstFree, TurnOf, Turned, Progress, Polled, Offered;
      ghost var w := State();
      SoundShape(w, editor);
      var polled := peers[..];
      var listening := !quits(Reached(AllLines(log)));
      if round.connecting { Accept(round.trusted); }
      ghost var a := State();
      SoundShape(a, editor);
      OfferedIs(w, a, round);
      ProgressStarts(w, round, listening);
      var i: nat := 0;
      while i < SLOTS
        invariant i <= SLOTS && Valid() && Shape(State()) && Progress(w, a, State(), i, round, listening)
      {
        ghost var s := State();
        Turn(i, polled[i], listening, round.events[i]);
        SoundShape(State(), editor);
        TurnTaken(s, State(), i, polled[i], listening, round.events[i]);
        ProgressStep(w, a, s, State(), i, round, listening);
        i := i + 1;
      }
      ProgressEnds(w, State(), round, listening);
    }

    /** poll is asked for POLLOUT on some peer. */
    method Waiting() returns (pending: bool)
      requires Valid()
      ensures pending <==> exists i :: 0 <= i < SLOTS && peers[i].outSent < |peers[i].out|
    {
      SoundShape(State(), editor);
      var i: nat := 0;
      while i < SLOTS
        invariant i <= SLOTS && forall k :: 0 <= k < i ==> peers[k].outSent >= |peers[k].out|
      {
        if peers[i].outSent < |peers[i].out| { return true; }
        i := i + 1;
      }
      return false;
    }

    /** The server's loop over whatever poll returns; worlds are its states, the
        first one and those after each iteration. The loop ends in the first
        state in which the editor has quit and every open connection was sent
        every reply, and in no other. */
    method Serve(rounds: seq<Round>) returns (finished: bool, ghost worlds: seq<World>)
      requires Valid() && forall k :: 0 <= k < |rounds| ==> |rounds[k].events| == SLOTS
      modifies peers, `log, `owner, `connections, `traffic
      ensures Valid() && Run(worlds, rounds, quits)
      ensures worlds[0] == old(State()) && worlds[|worlds| - 1] == State()
      ensures forall k :: 0 <= k < |worlds| ==> Sound(worlds[k], editor)
      ensures forall k :: 0 <= k < |worlds| - 1 ==> !Done(worlds[k], quits)
      ensures if finished then Done(State(), quits) else |worlds| == |rounds| + 1
    {
      hide Sound, Polled, Done, Reached, Shape;
      SoundShape(State(), editor);
      worlds := [State()];
      RunStarts(State(), rounds, quits);
      var n: nat := 0;
      while n < |rounds|
        invariant n <= |rounds| && Valid() && |worlds| == n + 1 && worlds[0] == old(State()) && worlds[n] == State()
        invariant Run(worlds, rounds, quits)
        invariant forall k :: 0 <= k <= n ==> Sound(worlds[k], editor)
        invariant forall k :: 0 <= k < n ==> !Done(worlds[k], quits)
      {
        var pending := Waiting();
        DoneIs(State(), quits, pending, editor);
        if quits(Reached(AllLines(log))) && !pending { return true, worlds; }
        ghost var w := State();
        SoundShape(w, editor);
        Poll(rounds[n]);
        SoundShape(State(), editor);
        RunOn(worlds, rounds, quits, w, State());
        worlds := worlds + [State()];
        n := n + 1;
      }
      return false, worlds;
    }
  }

  function FirstFree(peers: seq<Peer>, from: nat): (i: nat)
    requires from <= |peers|
    ensures from <= i <= |peers| && (forall k :: from <= k < i ==> peers[k].live)
    ensures i < |peers| ==> !peers[i].live
    decreases |peers| - from
  {
    if from == |peers| || !peers[from].live then from else FirstFree(peers, from + 1)
  }

  /** How much of the queued bytes a call to write took. */
  function Taken(put: Put, u: bytes): (n: nat)
    ensures n <= |u|
  {
    if put.Took? then Min(put.n, |u|) else 0
  }

  function Arrived(got: Got): bytes {
    if got.Data? then got.data else []
  }

  lemma ServingSlot(w: World, i: nat, editor: Editor)
    requires Serving(w, i, editor)
    ensures i < SLOTS && i < |w.peers| && i < |w.owner| && w.peers[i].live && Fits(w.peers[i])
    ensures w.owner[i] < |w.traffic|
  {
  }

  lemma ServingOverflows(w: World, i: nat, e: Entry, editor: Editor)
    requires Serving(w, i, editor) && e.conn == w.owner[i]
    requires Sound(WithPeer(Logged(w, e), i, CLOSED), editor)
    requires |Unsent(w.peers[i])| + |e.reply| + 1 > QUEUE
    ensures var t := w.traffic[w.owner[i]];
            |Due(e.conn, t, w.log + [e])| > QUEUE && Executed(e.conn, t, t, w.log + [e])
  {
    hide Busy, Idle, Honest, Sequential, Due, Executed, Fits;
    var v := WithPeer(Logged(w, e), i, CLOSED);
    assert Honest(e.conn, v.traffic[e.conn], v.log);
    Overflows(w.peers[i], w.traffic[w.owner[i]], w.log, e);
  }

  lemma ServedFits(p: Peer, q: Peer, k: nat, reply: bytes)
    requires Fits(p) && k < |p.input| && |Unsent(p)| + |reply| + 1 <= QUEUE
    requires q == p.(input := p.input[k + 1..], out := Unsent(p) + reply + [LF], outSent := 0)
    ensures Fits(q) && Unsent(q) == Unsent(p) + reply + [LF] && |q.input| < |p.input|
  {
  }

  lemma SoundShape(w: World, editor: Editor)
    requires Sound(w, editor)
    ensures Shape(w)
  {
  }

  lemma SoundFits(w: World, i: nat, editor: Editor)
    requires Sound(w, editor) && i < SLOTS && w.peers[i].live
    ensures Fits(w.peers[i])
  {
  }

  /** What is received changes nothing in what is due. */
  lemma DueOfReceived(c: nat, t: Traffic, data: bytes, log: seq<Entry>)
    ensures var u := t.(received := t.received + data);
            Due(c, u, log) == Due(c, t, log) && (Executed(c, u, u, log) <==> Executed(c, t, u, log))
  {
  }

  lemma UnsentLength(p: Peer)
    requires Fits(p)
    ensures |Unsent(p)| == |p.out| - p.outSent
  {
  }

  lemma ReadFits(p: Peer, q: Peer, data: bytes)
    requires Fits(p) && |p.input| + |data| <= FRAME
    requires var more := |p.input| + |data| + 1;
             q == p.(input := p.input + data, inCap := if more > p.inCap then more * 2 else p.inCap)
    ensures Fits(q)
  {
  }

  lemma WriteFits(p: Peer, q: Peer, n: nat)
    requires Fits(p) && n <= |p.out| - p.outSent
    requires q == p.(outSent := p.outSent + n) || (p.outSent + n == |p.out| && q == p.(out := [], outSent := 0))
    ensures Fits(q) && Unsent(q) == Unsent(p)[n..]
  {
  }

  /** Bytes read but not kept do not disturb a closed connection's record. */
  lemma LateBytes(w: World, c: nat, data: bytes, editor: Editor)
    requires Sound(w, editor) && c < |w.traffic|
    requires forall i :: 0 <= i < SLOTS && w.peers[i].live ==> w.owner[i] != c
    ensures Sound(w.(traffic := w.traffic[c := w.traffic[c].(received := w.traffic[c].received + data)]), editor)
  {
    hide Sequential, Idle, Lines, Rest, Joined, Requests, Answers;
    var t := w.traffic[c];
    LinesConcat(t.received, data);
  }

  /** In a sound world the k-th executed request, the j-th of its connection, is
      the j-th line that connection sent, answered by the editor as the k
      requests before it left it. */
  lemma PlaceInOrder(w: World, k: nat, editor: Editor)
    requires Sound(w, editor) && k < |w.log|
    ensures var e := w.log[k];
            var sent, j := Lines(w.traffic[e.conn].received), |Requests(w.log[..k], e.conn)|;
            && j < |sent| && sent[j] == e.line
            && e.reply == if Utf8.Valid(e.line) then editor(Reached(AllLines(w.log[..k])), Json.Normalise(e.line))
                          else INVALID
  {
    hide Lines, Requests, Answers, Joined, Idle, Utf8.Valid, Json.Normalise, Reached;
    var e := w.log[k];
    assert w.log[..k + 1] == w.log[..k] + [e];
    LogSnoc(w.log[..k], e, e.conn);
    RequestsPrefix(w.log, k + 1, e.conn);
    assert Honest(e.conn, w.traffic[e.conn], w.log);
  }

  /** A line with a NUL byte or malformed UTF-8 is refused and does not reach
      the editor. */
  lemma BadLineRefused(w: World, k: nat, editor: Editor)
    requires Sound(w, editor) && k < |w.log| && (0 in w.log[k].line || !Utf8.Valid(w.log[k].line))
    ensures w.log[k].reply == INVALID
    ensures Reached(AllLines(w.log[..k + 1])) == Reached(AllLines(w.log[..k]))
  {
    hide Utf8.Valid, Reached, AllHonest, OthersIdle;
    var l := w.log[k].line;
    if Utf8.Valid(l) { NoNulInside(l); }
    ReachedSnoc(AllLines(w.log[..k]), l);
    assert AllLines(w.log[..k + 1]) == AllLines(w.log[..k]) + [l];
    assert Reached(AllLines(w.log[..k])) + [] == Reached(AllLines(w.log[..k]));
  }
}
