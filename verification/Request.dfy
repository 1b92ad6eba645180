/** What stands between a received line and the editor: the check and the
    normalisation of parse_request, and what a C string keeps of a line. */
module Request {
  import opened Bytes
  import opened Utf8
  import Json

  /** An editor, as a function from the requests that reached it and the next
      one to its answer, be that a JSON error. */
  type Editor = (seq<bytes>, bytes) -> bytes

  const INVALID := Lit("{\"ok\":false,\"error\":\"Invalid UTF-8 request\"}")

  /** The lines that reach the editor, in plain ASCII. */
  function Reached(lines: seq<bytes>): seq<bytes> {
    if lines == [] then []
    else
      var l := lines[|lines| - 1];
      Reached(lines[..|lines| - 1]) + (if Valid(l) then [Json.Normalise(l)] else [])
  }

  /** The reply to a line. */
  function Reply(editor: Editor, before: seq<bytes>, line: bytes): bytes {
    if Valid(line) then editor(Reached(before), Json.Normalise(line)) else INVALID
  }

  /** parse_request. */
  method Parse(editor: Editor, before: seq<bytes>, line: bytes) returns (reply: bytes)
    ensures reply == Reply(editor, before, line)
  {
    hide Valid, Json.Normalise, Reached;
    var valid := Utf8Valid(line);
    if !valid { return INVALID; }
    var ascii := Json.StrictJsonAscii(line);
    reply := editor(Reached(before), ascii);
  }

  lemma ReachedSnoc(lines: seq<bytes>, l: bytes)
    ensures Reached(lines + [l]) == Reached(lines) + (if Valid(l) then [Json.Normalise(l)] else [])
  {
    hide Valid, Json.Normalise;
    assert (lines + [l])[..|lines|] == lines;
  }

  /** Every request that reaches the editor is plain ASCII. */
  lemma {:induction false} ReachedAscii(lines: seq<bytes>)
    ensures forall i :: 0 <= i < |Reached(lines)| ==> Json.Ascii(Reached(lines)[i])
  {
    hide Valid, Json.Normalise, Json.Ascii;
    if lines != [] {
      ReachedAscii(lines[..|lines| - 1]);
      var l := lines[|lines| - 1];
      if Valid(l) { Json.NormaliseAscii(l); }
    }
  }

  // ---- NUL bytes -----------------------------------------------------------------

  /** strlen stops at a NUL byte. */
  function CString(s: bytes): (r: bytes)
    ensures r <= s && 0 !in r
    ensures |r| < |s| ==> s[|r|] == 0
  {
    if s == [] || s[0] == 0 then []
    else
      assert s == [s[0]] + s[1..];
      [s[0]] + CString(s[1..])
  }

  /** Exactly the lines without a NUL byte are kept whole. */
  lemma CStringWhole(s: bytes)
    ensures CString(s) == s <==> 0 !in s
  {
    var r := CString(s);
    if |r| == |s| { assert r == s; }
  }

  lemma {:induction false} NoNulInside(s: bytes)
    requires Valid(s)
    ensures 0 !in s
    decreases |s|
  {
    if s != [] {
      var k := Decode(s).used;
      HeadShape(s);
      NoNulInside(s[k..]);
      HeadNotNul(s);
      assert s == s[..k] + s[k..];
    }
  }

  lemma HeadNotNul(s: bytes)
    requires s != [] && GoodHead(s) && Continued(s, Decode(s).used) && Decode(s).used <= |s|
    ensures 0 !in s[..Decode(s).used]
  {
    var k := Decode(s).used;
    forall i | 0 <= i < k
      ensures s[..k][i] != 0
    {
      if i > 0 { assert IsCont(s[i]); }
    }
  }

  /** A line with a NUL byte never reaches the editor as it is, but what a C
      string keeps of it may: the two ways of passing a line on differ exactly
      when it has a NUL byte behind valid UTF-8. */
  lemma NulDiffers(s: bytes)
    ensures 0 in s ==> Reached([s]) == []
    ensures Reached([CString(s)]) == Reached([s]) <==> 0 !in s || !Valid(CString(s))
  {
    hide Valid, Json.Normalise;
    CStringWhole(s);
    ReachedOne(s);
    ReachedOne(CString(s));
    if Valid(s) { NoNulInside(s); }
  }

  lemma ReachedOne(s: bytes)
    ensures Reached([s]) == if Valid(s) then [Json.Normalise(s)] else []
  {
    hide Valid, Json.Normalise;
    ReachedSnoc([], s);
    assert [] + [s] == [s];
  }

  /** The line `a`, NUL, `b`. */
  lemma NulExample()
    ensures var s: bytes := [97, 0, 98];
            Reached([s]) == [] && Reached([CString(s)]) == [[97]]
  {
    var s: bytes := [97, 0, 98];
    var r: bytes := [97];
    assert CString(s[1..]) == [];
    assert CString(s) == r;
    assert r[1..] == [];
    assert Valid(r) && Json.Normalise(r) == r;
    NulDiffers(s);
    ReachedOne(r);
  }
}
