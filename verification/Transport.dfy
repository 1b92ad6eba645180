/** Reading newline-terminated requests through a bounded buffer, and the
    backend that serves them over a pair of streams. */
module Transport {
  import opened Bytes
  import opened Framing
  import opened Request
  import Json
  import Utf8

  /** CP_MAX_FRAME. */
  const FRAME := 16 * 1024 * 1024

  // ---- How a stream is cut into reads ----------------------------------------------

  /** How much one call to read delivers, given how the kernel cuts the stream. */
  function Delivered(space: nat, left: nat, cuts: seq<nat>): (k: nat)
    ensures k <= space && k <= left
    ensures k == 0 ==> space == 0 || left == 0 || (cuts != [] && cuts[0] == 0)
  {
    if cuts == [] then Min(space, left) else Min(Min(space, left), cuts[0])
  }

  function Later(cuts: seq<nat>): seq<nat> {
    if cuts == [] then [] else cuts[1..]
  }

  /** The buffer's size when it is next read into: doubled, up to one byte more
      than a frame, when less than 4096 bytes are free. */
  function Grown(length: nat, capacity: nat): (r: nat)
    requires length < FRAME && length <= capacity <= FRAME + 1
    ensures length < r && capacity <= r <= FRAME + 1
  {
    if capacity - length >= 4096 then capacity
    else
      var twice := if capacity != 0 then capacity * 2 else 8192;
      if twice > FRAME + 1 then FRAME + 1 else twice
  }

  /** How many bytes are buffered when a frame or more is for the first time, or
      the stream ends, if none is taken out. */
  function Fill(length: nat, capacity: nat, left: nat, cuts: seq<nat>): (r: nat)
    requires length <= capacity <= FRAME + 1
    ensures length <= r <= FRAME + 1
    decreases left, |cuts|
  {
    if length >= FRAME || left == 0 then length
    else
      var room := Grown(length, capacity);
      var k := Delivered(room - length, left, cuts);
      Fill(length + k, room, left - k, Later(cuts))
  }

  /** The receiving end of a file descriptor: what is still to come, and how the
      kernel will cut it. A cut of 0 is an interrupted call. */
  class Source {
    var remaining: bytes
    var cuts: seq<nat>

    constructor (remaining: bytes, cuts: seq<nat>)
      ensures this.remaining == remaining && this.cuts == cuts
    {
      this.remaining, this.cuts := remaining, cuts;
    }

    /** read: at least one byte, unless interrupted or at the end. */
    method Read(space: nat) returns (interrupted: bool, data: bytes)
      requires space > 0
      modifies this
      ensures old(remaining) == data + remaining
      ensures |data| == Delivered(space, |old(remaining)|, old(cuts)) && cuts == Later(old(cuts))
      ensures interrupted == (old(cuts) != [] && old(cuts)[0] == 0)
    {
      interrupted, data := false, [];
      var k := Min(space, |remaining|);
      if cuts != [] {
        interrupted := cuts[0] == 0;
        k := Min(k, cuts[0]);
        cuts := cuts[1..];
      }
      data, remaining := remaining[..k], remaining[k..];
    }
  }

  /** The sending end: what was accepted so far. A cut is how much a call takes,
      0 an interrupted call, a negative one a failure. */
  class Sink {
    var written: bytes
    var cuts: seq<int>

    constructor (cuts: seq<int>)
      ensures written == [] && this.cuts == cuts
    {
      written, this.cuts := [], cuts;
    }

    method Write(s: bytes) returns (interrupted: bool, n: int)
      requires s != []
      modifies this
      ensures n <= |s| && written == old(written) + (if n > 0 then s[..n] else [])
      ensures n == if old(cuts) != [] && old(cuts)[0] < |s| then old(cuts)[0] else |s|
      ensures interrupted == (old(cuts) != [] && old(cuts)[0] == 0)
      ensures cuts == if old(cuts) == [] then [] else old(cuts)[1..]
    {
      interrupted, n := false, |s|;
      if cuts != [] {
        interrupted := cuts[0] == 0;
        if cuts[0] < n { n := cuts[0]; }
        cuts := cuts[1..];
      }
      written := written + (if n > 0 then s[..n] else []);
    }
  }

  /** No call of write will fail. */
  predicate NoFailure(cuts: seq<int>) {
    forall i :: 0 <= i < |cuts| ==> cuts[i] >= 0
  }

  /** protocol_write: on success all of s was written, on failure a proper
      prefix of it. */
  method ProtocolWrite(out: Sink, s: bytes) returns (ok: bool, ghost sent: nat)
    modifies out
    ensures sent <= |s| && out.written == old(out.written) + s[..sent]
    ensures ok <==> sent == |s|
    ensures old(NoFailure(out.cuts)) ==> ok && NoFailure(out.cuts)
  {
    var rest := s;
    sent := 0;
    ok := true;
    while rest != []
      invariant sent <= |s| && rest == s[sent..]
      invariant out.written == old(out.written) + s[..sent]
      invariant old(NoFailure(out.cuts)) ==> NoFailure(out.cuts)
      decreases |rest|, |out.cuts|
    {
      var interrupted, k := out.Write(rest);
      if !interrupted {
        if k <= 0 { return false, sent; }
        assert s[..sent] + rest[..k] == s[..sent + k];
        rest := rest[k..];
        sent := sent + k;
      }
    }
  }

  datatype Outcome = Line(text: bytes) | End | TooLong

  /** What reading a line returns, for every stream and every way of cutting it:
      the first line when it is shorter than a frame; when it is exactly a
      frame, whether the buffer filled up to the frame or beyond it decides. */
  function Verdict(all: bytes, fill: nat): Outcome {
    if Lines(all) == [] then (if |all| < FRAME then End else TooLong)
    else
      var first := Lines(all)[0];
      if |first| < FRAME || (|first| == FRAME && fill > FRAME) then Line(first) else TooLong
  }

  class Connection {
    var input: array<byte>
    var length: nat
    const source: Source

    predicate Valid()
      reads this
    {
      length <= input.Length <= FRAME + 1
    }

    function Contents(): bytes
      requires Valid()
      reads this, input
    {
      input[..length]
    }

    /** Received and not yet returned, then still to come. */
    function Pending(): bytes
      requires Valid()
      reads this, input, source
    {
      Contents() + source.remaining
    }

    /** Fill, for this connection. */
    function Filling(): nat
      requires Valid()
      reads this, source
    {
      Fill(length, input.Length, |source.remaining|, source.cuts)
    }

    constructor (source: Source)
      ensures length == 0 && input.Length == 0
      ensures Valid() && fresh(input) && this.source == source && Pending() == source.remaining
    {
      this.source, length, input := source, 0, new byte[0];
    }

    /** Makes room for at least one byte. */
    method Reserve()
      requires Valid() && length < FRAME
      modifies this
      ensures Valid() && length == old(length) && (input == old(input) || fresh(input))
      ensures Contents() == old(Contents()) && input.Length == Grown(length, old(input.Length))
    {
      if input.Length - length < 4096 {
        var capacity := if input.Length != 0 then input.Length * 2 else 8192;
        if capacity > FRAME + 1 { capacity := FRAME + 1; }
        var buffer := new byte[capacity](_ => 0);
        var i: nat := 0;
        while i < length
          invariant i <= length && buffer[..i] == input[..i]
          modifies buffer
        {
          buffer[i] := input[i];
          i := i + 1;
        }
        input := buffer;
      }
    }

    /** memmove of the rest of the buffer to its front. */
    method Consume(n: nat)
      requires Valid() && n <= length
      modifies input, `length
      ensures Valid() && Contents() == old(Contents())[n..]
    {
      var i: nat := 0;
      while i < length - n
        invariant i <= length - n
        invariant input[..i] == old(input[n..n + i])
        invariant input[i..] == old(input[i..])
        modifies input
      {
        assert input[n + i] == input[i..][n];
        assert old(input[n + i]) == old(input[i..])[n];
        input[i] := input[n + i];
        assert old(input[n..n + i + 1]) == old(input[n..n + i]) + [old(input[n + i])];
        assert input[i + 1..] == old(input[i..])[1..];
        i := i + 1;
      }
      length := length - n;
    }

    method Append(data: bytes)
      requires Valid() && length + |data| <= input.Length
      modifies input, `length
      ensures Valid() && Contents() == old(Contents()) + data
    {
      var i: nat := 0;
      while i < |data|
        invariant i <= |data| && input[..length + i] == old(input[..length]) + data[..i]
        modifies input
      {
        input[length + i] := data[i];
        assert input[..length + i + 1] == input[..length + i] + [data[i]];
        i := i + 1;
      }
      length := length + |data|;
    }

    /** protocol_read_line. However the stream is cut, no byte is lost or
        reordered. */
    method ReadLine() returns (r: Outcome)
      requires Valid()
      modifies this, input, source
      ensures Valid() && (input == old(input) || fresh(input))
      ensures r == Verdict(old(Pending()), old(Filling()))
      ensures r.Line? ==> Lines(old(Pending())) == [r.text] + Lines(Pending())
      ensures r.Line? ==> Rest(old(Pending())) == Rest(Pending())
      ensures r.Line? ==> |r.text| <= FRAME
      ensures !r.Line? ==> Pending() == old(Pending())
    {
      hide Lines, Rest, Verdict, Grown, Delivered;
      ghost var all, fill := Pending(), Filling();
      while true
        invariant Valid() && (input == old(input) || fresh(input))
        invariant Pending() == all && Filling() == fill
        decreases |source.remaining|, |source.cuts|
      {
        ghost var c := Contents();
        var k := FindNewline(input[..length]);
        if k < length {
          var text := input[..k];
          assert c[..k] == text && c[k] == LF;
          Consume(k + 1);
          TakeLine(all, c, source.remaining, k, fill);
          return Line(text);
        }
        assert input[..k] == c;
        Waiting(all, c, source.remaining, fill);
        if length >= FRAME { return TooLong; }
        var end := Receive();
        if end { return End; }
      }
    }

    /** One call to read into the free part of the buffer. */
    method Receive() returns (end: bool)
      requires Valid() && length < FRAME
      modifies this, input, source
      ensures Valid() && (input == old(input) || fresh(input))
      ensures Pending() == old(Pending())
      ensures !end ==> Filling() == old(Filling())
      ensures end ==> old(source.remaining) == []
      ensures !end ==> |source.remaining| <= |old(source.remaining)|
      ensures !end && |source.remaining| == |old(source.remaining)| ==> |source.cuts| < |old(source.cuts)|
    {
      hide Delivered;
      ghost var c, left, cuts := Contents(), |source.remaining|, source.cuts;
      ghost var was, capacity := length, input.Length;
      Reserve();
      var interrupted, data := source.Read(input.Length - length);
      if !interrupted && data == [] { return true; }
      Append(data);
      assert c + data + source.remaining == c + (data + source.remaining);
      FillStep(was, capacity, left, cuts);
      return false;
    }
  }

  lemma FillStep(length: nat, capacity: nat, left: nat, cuts: seq<nat>)
    requires length < FRAME && length <= capacity <= FRAME + 1
    ensures var room := Grown(length, capacity);
            var k := Delivered(room - length, left, cuts);
            (left > 0 || cuts != []) ==>
                Fill(length, capacity, left, cuts) == Fill(length + k, room, left - k, Later(cuts))
  {
    hide Grown;
  }

  lemma TakeLine(all: bytes, c: bytes, remaining: bytes, k: nat, fill: nat)
    requires all == c + remaining && k < |c| && c[k] == LF && LF !in c[..k] && |c| <= FRAME + 1
    requires |c| >= FRAME ==> fill == |c|
    ensures Lines(all) == [c[..k]] + Lines(c[k + 1..] + remaining) && Rest(all) == Rest(c[k + 1..] + remaining)
    ensures Line(c[..k]) == Verdict(all, fill)
  {
    hide Lines, Rest;
    assert all[..k] == c[..k] && all[k + 1..] == c[k + 1..] + remaining;
    FirstLine(all, k);
  }

  /** Without a newline in the buffer the first line, if there is one, is at
      least as long as the buffer's contents. */
  lemma Waiting(all: bytes, c: bytes, remaining: bytes, fill: nat)
    requires all == c + remaining && LF !in c
    requires |c| >= FRAME ==> fill == |c|
    ensures |c| >= FRAME ==> Verdict(all, fill) == TooLong
    ensures |c| < FRAME && remaining == [] ==> Verdict(all, fill) == End
  {
    hide Lines;
    RestIsPlain(c);
    LinesConcat(c, remaining);
    if remaining == [] { assert all == c; }
    if Lines(all) != [] { FirstLineLong(all, c); }
    if Lines(all) == [] { SplitJoins(all); }
  }

  lemma FirstLineLong(all: bytes, c: bytes)
    requires c <= all && LF !in c && Lines(all) != []
    ensures |c| <= |Lines(all)[0]|
  {
    hide Lines, Rest;
    SplitJoins(all);
    var ls := Lines(all);
    assert ls == [ls[0]] + ls[1..];
    JoinedConcat([ls[0]], ls[1..]);
    JoinedOne(ls[0]);
    var k := |ls[0]|;
    assert all[k] == LF;
    assert forall i :: 0 <= i < |c| ==> c[i] == all[i];
  }

  lemma JoinedOne(l: bytes)
    ensures Joined([l]) == l + [LF]
  {
    JoinedSnoc([], l);
    assert [] + [l] == [l] && [] + l == l;
  }

  // ---- A line of exactly one frame ----------------------------------------------------

  /** Reads that always fill the buffer double it to exactly one frame. */
  lemma {:induction false} FillsExactly(length: nat, left: nat, doublings: nat)
    requires 8192 <= length && Doubled(length, doublings) == FRAME && left >= FRAME - length
    ensures length <= FRAME && Fill(length, length, left, []) == FRAME
    decreases doublings
  {
    DoubledGrows(length, doublings);
    if doublings > 0 {
      assert Doubled(length, doublings) == Doubled(length * 2, doublings - 1);
      DoubledGrows(length * 2, doublings - 1);
      FillsExactly(length * 2, left - length, doublings - 1);
    }
  }

  function Doubled(n: nat, times: nat): nat
    decreases times
  {
    if times == 0 then n else Doubled(n * 2, times - 1)
  }

  lemma {:induction false} DoubledGrows(n: nat, times: nat)
    ensures n <= Doubled(n, times)
    decreases times
  {
    if times > 0 { DoubledGrows(n * 2, times - 1); }
  }

  const STRIDE := 4095

  /** Reads of 4095 bytes leave the buffer one byte short of a frame; the last
      one then takes the newline as well. */
  lemma {:induction false} FillsBeyond(length: nat, capacity: nat, left: nat, cuts: seq<nat>, n: nat)
    requires length + STRIDE * n == FRAME - 1 && length <= capacity <= FRAME + 1 && left == FRAME + 1 - length
    requires capacity == 0 || capacity >= 8192
    requires |cuts| > n && forall i :: 0 <= i < |cuts| ==> cuts[i] == STRIDE
    ensures Fill(length, capacity, left, cuts) == FRAME + 1
    decreases n
  {
    if n > 0 {
      FillsBeyond(length + STRIDE, Grown(length, capacity), left - STRIDE, cuts[1..], n - 1);
    } else {
      assert Fill(FRAME + 1, FRAME + 1, 0, cuts[1..]) == FRAME + 1;
    }
  }

  function Repeated(n: nat): bytes {
    seq(n, _ => 97)
  }

  /** The same line of one frame, cut in two ways: refused and delivered. */
  method ExactFrame() returns (refused: Outcome, delivered: Outcome)
    ensures refused == TooLong && delivered == Line(Repeated(FRAME))
  {
    hide Lines, Rest, Fill;
    var line := Repeated(FRAME);
    LinesCons(line, []);
    assert line + [LF] + [] == line + [LF];
    RestIsPlain([]);
    assert Lines(line + [LF]) == [line];
    var s := new Source(line + [LF], []);
    var c := new Connection(s);
    FillsFromEmpty(FRAME + 1);
    refused := c.ReadLine();
    s := new Source(line + [LF], seq(4098, _ => STRIDE));
    c := new Connection(s);
    FillsBeyond(0, 0, FRAME + 1, seq(4098, _ => STRIDE), 4097);
    delivered := c.ReadLine();
  }

  lemma FillsFromEmpty(left: nat)
    requires left >= FRAME
    ensures Fill(0, 0, left, []) == FRAME
  {
    FillsExactly(8192, left - 8192, 11);
  }

  // ---- backend_stdio ---------------------------------------------------------------

  /** The replies to requests executed in this order, each ended by a newline. */
  function Replies(editor: Editor, log: seq<bytes>): bytes {
    if log == [] then []
    else
      var p, line := log[..|log| - 1], log[|log| - 1];
      Replies(editor, p) + Reply(editor, p, line) + [LF]
  }

  /** The k-th reply: the editor's answer to the k-th request, given what reached
      it before; a request that is not valid UTF-8 is refused. */
  lemma RepliesAt(editor: Editor, log: seq<bytes>, k: nat)
    requires k < |log|
    ensures Replies(editor, log[..k + 1])
         == Replies(editor, log[..k]) + Reply(editor, log[..k], log[k]) + [LF] <= Replies(editor, log)
    ensures Reply(editor, log[..k], log[k])
         == if Utf8.Valid(log[k]) then editor(Reached(log[..k]), Json.Normalise(log[k])) else INVALID
  {
    hide Utf8.Valid, Json.Normalise, Reached, Replies, Lit;
    assert log[..k + 1] == log[..k] + [log[k]];
    RepliesSnoc(editor, log[..k], log[k]);
    RepliesPrefix(editor, log, k + 1);
  }

  lemma {:induction false} RepliesPrefix(editor: Editor, log: seq<bytes>, k: nat)
    requires k <= |log|
    ensures Replies(editor, log[..k]) <= Replies(editor, log)
  {
    hide Reply;
    if k == |log| {
      assert log[..k] == log;
    } else {
      var p := log[..|log| - 1];
      RepliesPrefix(editor, p, k);
      assert p[..k] == log[..k];
    }
  }

  predicate Executed(log: seq<bytes>, lines: seq<bytes>) {
    |log| <= |lines| && forall i :: 0 <= i < |log| ==> log[i] == CString(lines[i])
  }

  predicate Short(lines: seq<bytes>) {
    forall i :: 0 <= i < |lines| ==> |lines[i]| < FRAME
  }

  /** A reply and its newline; on failure a prefix of them was written. */
  method Answer(out: Sink, reply: bytes) returns (ok: bool)
    modifies out
    ensures out.written <= old(out.written) + reply + [LF]
    ensures ok ==> out.written == old(out.written) + reply + [LF]
    ensures old(NoFailure(out.cuts)) ==> ok && NoFailure(out.cuts)
  {
    ghost var sent: nat;
    ok, sent := ProtocolWrite(out, reply);
    if ok { ok, sent := ProtocolWrite(out, [LF]); }
  }

  lemma ExecutedMore(log: seq<bytes>, lines: seq<bytes>, text: bytes, rest: seq<bytes>)
    requires Executed(log, lines) && lines[|log|..] == [text] + rest
    ensures Executed(log + [CString(text)], lines) && lines[|log| + 1..] == rest
  {
    assert lines[|log|] == lines[|log|..][0];
    assert lines[|log| + 1..] == lines[|log|..][1..];
  }

  /** Reading stops only before a line of a frame or more, or at the end. */
  lemma NothingLeft(lines: seq<bytes>, n: nat, all: bytes, fill: nat)
    requires n <= |lines| && lines[n..] == Lines(all) && !Verdict(all, fill).Line?
    ensures forall m :: 0 <= m <= |lines| && Short(lines[..m]) ==> m <= n
  {
    hide Lines;
    if n < |lines| {
      assert lines[n..][0] == lines[n];
      forall m | n < m <= |lines|
        ensures !Short(lines[..m])
      {
        assert lines[..m][n] == lines[n];
      }
    }
  }

  /** backend_stdio: editor gives the reply to a request after those that
      reached it before, quits whether these ended it. The requests executed
      are the lines received, in order, each up to its first NUL byte; the
      output is the replies, in order, and stops early only in a reply that
      could not be written, which happens only when a call of write fails. None
      is executed after the editor has quit; unless it quits or a write fails,
      all lines before the first one of a frame or more are executed. */
  method BackendStdio(c: Connection, out: Sink, editor: Editor, quits: seq<bytes> -> bool)
    returns (log: seq<bytes>, ok: bool)
    requires c.Valid() && out.written == []
    modifies c, c.input, c.source, out
    ensures c.Valid() && Executed(log, Lines(old(c.Pending())))
    ensures Lines(old(c.Pending()))[|log|..] == Lines(c.Pending())
    ensures out.written <= Replies(editor, log) && (ok ==> out.written == Replies(editor, log))
    ensures old(NoFailure(out.cuts)) ==> ok
    ensures forall k :: 0 <= k < |log| ==> !quits(Reached(log[..k]))
    ensures var lines := Lines(old(c.Pending()));
            ok && !quits(Reached(log)) ==> forall m :: 0 <= m <= |lines| && Short(lines[..m]) ==> m <= |log|
  {
    hide Lines, Rest, Executed, Short, Verdict, Fill, Reply, Replies, CString, Reached, NoFailure;
    ghost var lines := Lines(c.Pending());
    log, ok := [], true;
    Start(lines, editor);
    while ok && !quits(Reached(log))
      invariant c.Valid() && (c.input == old(c.input) || fresh(c.input))
      invariant |log| <= |lines| && Executed(log, lines) && lines[|log|..] == Lines(c.Pending())
      invariant out.written <= Replies(editor, log) && (ok ==> out.written == Replies(editor, log))
      invariant old(NoFailure(out.cuts)) ==> ok && NoFailure(out.cuts)
      invariant forall k :: 0 <= k < |log| ==> !quits(Reached(log[..k]))
      decreases |lines| - |log|, ok
    {
      ghost var before, fill := c.Pending(), c.Filling();
      var r := c.ReadLine();
      if !r.Line? {
        NothingLeft(lines, |log|, before, fill);
        return;
      }
      ExecutedMore(log, lines, r.text, Lines(c.Pending()));
      var request := CString(r.text);
      var reply := Parse(editor, log, request);
      RepliesSnoc(editor, log, request);
      StillOn(log, request, quits);
      log := log + [request];
      ok := Answer(out, reply);
    }
  }

  lemma StillOn(log: seq<bytes>, line: bytes, quits: seq<bytes> -> bool)
    requires !quits(Reached(log)) && forall k :: 0 <= k < |log| ==> !quits(Reached(log[..k]))
    ensures forall k :: 0 <= k < |log + [line]| ==> !quits(Reached((log + [line])[..k]))
  {
    hide Reached;
    forall k | 0 <= k < |log + [line]|
      ensures !quits(Reached((log + [line])[..k]))
    {
      if k == |log| { assert (log + [line])[..k] == log; } else { assert (log + [line])[..k] == log[..k]; }
    }
  }

  lemma Start(lines: seq<bytes>, editor: Editor)
    ensures Executed([], lines) && Replies(editor, []) == [] && lines[0..] == lines
  {
  }

  lemma RepliesSnoc(editor: Editor, log: seq<bytes>, line: bytes)
    ensures Replies(editor, log + [line]) == Replies(editor, log) + Reply(editor, log, line) + [LF]
  {
    assert (log + [line])[..|log|] == log;
  }
}
