/** UTF-8 as the editor recognises it, against sections 3 and 4 of RFC 3629. */
module Utf8 {
  import opened Bytes

  // ---- The reference: RFC 3629, section 3 ---------------------------------

  predicate IsScalar(c: int) {
    0 <= c <= 0x10FFFF && !(0xD800 <= c <= 0xDFFF)
  }

  type scalar = c: int | IsScalar(c)

  function Encode(c: scalar): (s: bytes)
    ensures 1 <= |s| <= 4
  {
    assert IsScalar(c);
    if c < 0x80 then
      var b: byte := c;
      [b]
    else if c < 0x800 then
      [Lead(0xC0, c / 64), Trail(c)]
    else if c < 0x10000 then
      [Lead(0xE0, c / 4096), Trail(c / 64), Trail(c)]
    else
      [Lead(0xF0, c / 262144), Trail(c / 4096), Trail(c / 64), Trail(c)]
  }

  function Lead(tag: byte, high: nat): byte
    requires tag + high < 256
  {
    tag + high
  }

  function Trail(c: nat): byte {
    0x80 + c % 64
  }

  function EncodeAll(cs: seq<scalar>): bytes {
    if cs == [] then [] else Encode(cs[0]) + EncodeAll(cs[1..])
  }

  // ---- The recogniser ------------------------------------------------------

  const REPLACEMENT := 0xFFFD

  datatype Decoded = Decoded(code: nat, used: nat)

  /** Sequence length announced by a lead byte; 0 for a byte that cannot lead. */
  function LeadLength(b: byte): nat {
    if b < 0x80 then 1
    else if 0xC2 <= b <= 0xDF then 2
    else if 0xE0 <= b <= 0xEF then 3
    else if 0xF0 <= b <= 0xF4 then 4
    else 0
  }

  function LeadBits(b: byte): nat {
    if b < 0x80 then b
    else if 0xC2 <= b <= 0xDF then b - 0xC0
    else if 0xE0 <= b <= 0xEF then b - 0xE0
    else if 0xF0 <= b <= 0xF4 then b - 0xF0
    else 0
  }

  /** b & 0x3f. */
  function Low6(b: byte): nat {
    b % 64
  }

  /** Lead bits followed by six bits from each of the bytes 1 .. k-1. */
  function Accumulate(s: bytes, k: nat): nat
    requires 1 <= k <= |s|
  {
    if k == 1 then LeadBits(s[0]) else Accumulate(s, k - 1) * 64 + Low6(s[k - 1])
  }

  predicate Continued(s: bytes, k: nat)
    requires k <= |s|
  {
    forall i :: 1 <= i < k ==> IsCont(s[i])
  }

  predicate Acceptable(k: nat, c: nat) {
    !(k == 3 && c < 0x800) && !(k == 4 && c < 0x10000) && IsScalar(c)
  }

  function Decode(s: bytes): (d: Decoded)
    ensures 1 <= d.used <= 4
    ensures s != [] ==> d.used <= |s|
  {
    if s == [] then Decoded(0, 1)
    else
      var k := LeadLength(s[0]);
      if k == 1 then Decoded(s[0], 1)
      else if k == 0 || |s| < k || !Continued(s, k) || !Acceptable(k, Accumulate(s, k)) then Decoded(REPLACEMENT, 1)
      else Decoded(Accumulate(s, k), k)
  }

  /** utf8_decode. */
  method Utf8Decode(s: bytes) returns (c: nat, used: nat)
    ensures Decoded(c, used) == Decode(s)
  {
    used := 1;
    if |s| == 0 { return 0, 1; }
    c := s[0];
    var k: nat;
    if c < 0x80 { return; }
    if 0xC2 <= c <= 0xDF { k := 2; c := c % 32; }
    else if 0xE0 <= c <= 0xEF { k := 3; c := c % 16; }
    else if 0xF0 <= c <= 0xF4 { k := 4; c := c % 8; }
    else { return REPLACEMENT, 1; }
    if |s| < k { return REPLACEMENT, 1; }
    var i := 1;
    while i < k
      invariant 1 <= i <= k <= |s| && k == LeadLength(s[0])
      invariant c == Accumulate(s, i)
      invariant Continued(s, i)
    {
      if !IsCont(s[i]) {
        return REPLACEMENT, 1;
      }
      c := c * 64 + Low6(s[i]);
      i := i + 1;
    }
    if (k == 3 && c < 0x800) || (k == 4 && c < 0x10000) || c > 0x10FFFF || 0xD800 <= c <= 0xDFFF {
      return REPLACEMENT, 1;
    }
    used := k;
  }

  /** The first code point is well formed and not NUL. */
  predicate GoodHead(s: bytes)
    requires s != []
  {
    var d := Decode(s);
    !(s[0] >= 0x80 && d.used == 1) && d.code != 0
  }

  /** What utf8_valid accepts. */
  predicate Valid(s: bytes) {
    s == [] || (GoodHead(s) && Valid(s[Decode(s).used..]))
  }

  /** utf8_valid. */
  method Utf8Valid(s: bytes) returns (ok: bool)
    ensures ok == Valid(s)
  {
    var i := 0;
    while i < |s|
      invariant 0 <= i <= |s|
      invariant Valid(s) == Valid(s[i..])
    {
      var c, k := Utf8Decode(s[i..]);
      if s[i] >= 128 && k == 1 { return false; }
      if c == 0 { return false; }
      assert s[i..][k..] == s[i + k..];
      i := i + k;
    }
    return true;
  }

  // ---- Decoding one code point inverts encoding it -------------------------

  lemma AccumulateExpand(s: bytes, k: nat)
    requires 1 <= k <= |s| && k <= 4
    ensures k == 1 ==> Accumulate(s, k) == LeadBits(s[0])
    ensures k == 2 ==> Accumulate(s, k) == LeadBits(s[0]) * 64 + Low6(s[1])
    ensures k == 3 ==> Accumulate(s, k) == (LeadBits(s[0]) * 64 + Low6(s[1])) * 64 + Low6(s[2])
    ensures k == 4 ==> Accumulate(s, k) == ((LeadBits(s[0]) * 64 + Low6(s[1])) * 64 + Low6(s[2])) * 64 + Low6(s[3])
  {
    if k >= 2 { assert Accumulate(s, 2) == Accumulate(s, 1) * 64 + Low6(s[1]); }
    if k >= 3 { assert Accumulate(s, 3) == Accumulate(s, 2) * 64 + Low6(s[2]); }
    if k == 4 { assert Accumulate(s, 4) == Accumulate(s, 3) * 64 + Low6(s[3]); }
  }

  lemma TrailFacts(c: nat)
    ensures IsCont(Trail(c)) && Low6(Trail(c)) == c % 64
  {
  }

  lemma DecodeEncode(c: scalar, rest: bytes)
    ensures Decode(Encode(c) + rest) == Decoded(c, |Encode(c)|)
  {
    var e := Encode(c);
    var s := e + rest;
    var k := |e|;
    EncodeShape(c);
    assert forall i :: 0 <= i < k ==> s[i] == e[i];
    AccumulateExpand(s, k);
    EncodeDigits(c);
  }

  lemma EncodeShape(c: scalar)
    ensures var e := Encode(c);
            LeadLength(e[0]) == |e| && Continued(e, |e|) && Acceptable(|e|, c)
  {
    assert IsScalar(c);
  }

  lemma EncodeDigits(c: scalar)
    ensures var e := Encode(c);
            && (|e| == 1 ==> LeadBits(e[0]) == c)
            && (|e| == 2 ==> LeadBits(e[0]) * 64 + Low6(e[1]) == c)
            && (|e| == 3 ==> (LeadBits(e[0]) * 64 + Low6(e[1])) * 64 + Low6(e[2]) == c)
            && (|e| == 4 ==> ((LeadBits(e[0]) * 64 + Low6(e[1])) * 64 + Low6(e[2])) * 64 + Low6(e[3]) == c)
  {
    assert IsScalar(c);
    TrailFacts(c);
    TrailFacts(c / 64);
    TrailFacts(c / 4096);
    SixBits(c);
  }

  lemma SixBits(c: nat)
    ensures c == c / 64 * 64 + c % 64
    ensures c / 64 == c / 4096 * 64 + c / 64 % 64
    ensures c / 4096 == c / 262144 * 64 + c / 4096 % 64
  {
  }

  lemma EncodeDecode(s: bytes)
    requires s != [] && GoodHead(s)
    ensures var d := Decode(s);
            IsScalar(d.code) && Encode(d.code) == s[..d.used]
  {
    var k := Decode(s).used;
    AccumulateExpand(s, k);
    HeadShape(s);
    if k == 2 {
      EncodeTwo(s);
    } else if k == 3 {
      EncodeThree(s);
    } else if k == 4 {
      EncodeFour(s);
    }
  }

  predicate Shaped(s: bytes, k: nat)
    requires 1 <= k <= |s|
  {
    LeadLength(s[0]) == k && Continued(s, k) && Acceptable(k, Accumulate(s, k))
  }

  lemma EncodeTwo(s: bytes)
    requires 2 <= |s| && Shaped(s, 2)
    ensures Encode(Accumulate(s, 2)) == s[..2]
  {
    AccumulateExpand(s, 2);
    var q := Appended(LeadBits(s[0]), s[1]);
    assert Encode(q) == [Lead(0xC0, q / 64), Trail(q)];
  }

  lemma EncodeThree(s: bytes)
    requires 3 <= |s| && Shaped(s, 3)
    ensures Encode(Accumulate(s, 3)) == s[..3]
  {
    AccumulateExpand(s, 3);
    var q := Appended(LeadBits(s[0]), s[1]);
    var r := Appended(q, s[2]);
    assert r / 4096 == q / 64;
    assert Encode(r) == [Lead(0xE0, r / 4096), Trail(r / 64), Trail(r)];
  }

  lemma EncodeFour(s: bytes)
    requires 4 <= |s| && Shaped(s, 4)
    ensures Encode(Accumulate(s, 4)) == s[..4]
  {
    AccumulateExpand(s, 4);
    var q := Appended(LeadBits(s[0]), s[1]);
    var r := Appended(q, s[2]);
    var c := Appended(r, s[3]);
    assert c / 4096 == r / 64 && c / 262144 == q / 64;
    assert Encode(c) == [Lead(0xF0, c / 262144), Trail(c / 4096), Trail(c / 64), Trail(c)];
  }

  /** Appending six bits can be undone. */
  lemma Appended(q: nat, b: byte) returns (r: nat)
    requires IsCont(b)
    ensures r == q * 64 + Low6(b) && r / 64 == q && Trail(r) == b
  {
    r := q * 64 + Low6(b);
    assert r % 64 == Low6(b);
  }

  /** Shape of an accepted head: one start byte, then continuation bytes only. */
  lemma HeadShape(s: bytes)
    requires s != [] && GoodHead(s)
    ensures !IsCont(s[0]) && Decode(s).used == LeadLength(s[0]) <= |s|
    ensures Continued(s, Decode(s).used)
  {
  }

  /** Bytes after an accepted head do not change how it decodes. */
  lemma HeadLocal(p: bytes, s: bytes)
    requires p != [] && s != []
    requires p <= s || (s <= p && Decode(p).used <= |s|)
    requires GoodHead(p)
    ensures Decode(s) == Decode(p) && GoodHead(s)
  {
    EncodeDecode(p);
    var d := Decode(p);
    assert s[..d.used] == p[..d.used];
    assert s == Encode(d.code) + s[d.used..];
    DecodeEncode(d.code, s[d.used..]);
  }

  // ---- Exactness -----------------------------------------------------------

  predicate NoNul(cs: seq<scalar>) {
    forall i :: 0 <= i < |cs| ==> cs[i] != 0
  }

  function DecodeAll(s: bytes): (cs: seq<scalar>)
    requires Valid(s)
  {
    if s == [] then []
    else
      EncodeDecode(s);
      [Decode(s).code] + DecodeAll(s[Decode(s).used..])
  }

  lemma {:induction false} DecodeAllInverse(s: bytes)
    requires Valid(s)
    ensures NoNul(DecodeAll(s)) && EncodeAll(DecodeAll(s)) == s
  {
    hide Decode, Encode, EncodeAll;
    if s == [] {
      NothingEncoded();
    } else {
      EncodeDecode(s);
      var c, k := Decode(s).code, Decode(s).used;
      var rest := s[k..];
      DecodeAllInverse(rest);
      EncodeAllCons(c, DecodeAll(rest));
      assert DecodeAll(s) == [c] + DecodeAll(rest);
      assert s == s[..k] + rest;
    }
  }

  lemma NothingEncoded()
    ensures EncodeAll([]) == []
  {
  }

  lemma EncodeAllCons(c: scalar, cs: seq<scalar>)
    ensures EncodeAll([c] + cs) == Encode(c) + EncodeAll(cs)
  {
    assert ([c] + cs)[1..] == cs;
  }

  lemma {:induction false} EncodeAllInverse(cs: seq<scalar>)
    requires NoNul(cs)
    ensures Valid(EncodeAll(cs)) && DecodeAll(EncodeAll(cs)) == cs
  {
    if cs != [] {
      var e, rest := Encode(cs[0]), EncodeAll(cs[1..]);
      DecodeEncode(cs[0], rest);
      EncodeAllInverse(cs[1..]);
      assert (e + rest)[|e|..] == rest;
    }
  }

  /** utf8_valid accepts exactly the encodings of non-NUL scalar sequences. */
  lemma ValidExact(s: bytes)
    ensures Valid(s) <==> exists cs: seq<scalar> :: NoNul(cs) && EncodeAll(cs) == s
  {
    if Valid(s) {
      DecodeAllInverse(s);
    }
    forall cs: seq<scalar> | NoNul(cs) && EncodeAll(cs) == s
      ensures Valid(s)
    {
      EncodeAllInverse(cs);
    }
  }

  // ---- Concatenation, cutting, synchronisation -----------------------------

  lemma {:induction false} ValidConcat(a: bytes, b: bytes)
    requires Valid(a) && Valid(b)
    ensures Valid(a + b)
    decreases |a|
  {
    hide Valid, Decode, GoodHead;
    if a == [] {
      assert a + b == b;
    } else {
      ValidParts(a);
      HeadLocal(a, a + b);
      var k := Decode(a).used;
      ValidConcat(a[k..], b);
      assert (a + b)[k..] == a[k..] + b;
      ValidParts(a + b);
    }
  }

  /** A non-empty text is valid when its head and its rest are. */
  lemma ValidParts(s: bytes)
    requires s != []
    ensures Valid(s) <==> GoodHead(s) && Valid(s[Decode(s).used..])
  {
  }

  /** Dropping a valid prefix of a valid text leaves valid text. */
  lemma {:induction false} ValidDrop(a: bytes, b: bytes)
    requires Valid(a) && Valid(a + b)
    ensures Valid(b)
    decreases |a|
  {
    if a == [] {
      assert a + b == b;
    } else {
      HeadLocal(a, a + b);
      var k := Decode(a).used;
      assert (a + b)[k..] == a[k..] + b;
      ValidDrop(a[k..], b);
    }
  }

  lemma ValidHead(s: bytes)
    requires Valid(s) && s != []
    ensures !IsCont(s[0])
  {
    HeadShape(s);
  }

  /** Cutting at a code-point boundary leaves two valid texts. */
  lemma {:induction false} ValidCut(s: bytes, i: nat)
    requires Valid(s) && IsBoundary(s, i)
    ensures Valid(s[..i]) && Valid(s[i..])
    decreases |s|
  {
    if i == 0 {
      assert s[0..] == s;
    } else {
      HeadShape(s);
      var k := Decode(s).used;
      assert k <= i;
      ValidCut(s[k..], i - k);
      HeadLocal(s, s[..i]);
      assert s[..i][k..] == s[k..][..i - k];
      assert s[k..][i - k..] == s[i..];
    }
  }

  lemma ValidSlice(s: bytes, i: nat, j: nat)
    requires Valid(s) && i <= j && IsBoundary(s, i) && IsBoundary(s, j)
    ensures Valid(s[i..j])
  {
    ValidCut(s, j);
    ValidCut(s[..j], i);
    assert s[..j][i..] == s[i..j];
  }

  /** Splicing valid text between two boundaries keeps the text valid. */
  lemma ValidSplice(s: bytes, at: nat, n: nat, t: bytes)
    requires Valid(s) && Valid(t) && IsBoundary(s, at) && at + n <= |s| && IsBoundary(s, at + n)
    ensures Valid(Splice(s, at, n, t))
  {
    ValidCut(s, at);
    ValidCut(s, at + n);
    ValidConcat(s[..at], t);
    ValidConcat(s[..at] + t, s[at + n..]);
  }

  /** A boundary that a splice does not delete is a boundary afterwards. */
  lemma BoundaryAfterSplice(s: bytes, at: nat, n: nat, t: bytes, p: nat)
    requires Valid(s) && Valid(t) && IsBoundary(s, at) && at + n <= |s| && IsBoundary(s, at + n)
    requires IsBoundary(s, p)
    ensures p <= at ==> IsBoundary(Splice(s, at, n, t), p)
    ensures p >= at + n ==> IsBoundary(Splice(s, at, n, t), p - n + |t|)
    ensures IsBoundary(Splice(s, at, n, t), at + |t|)
  {
    var r := Splice(s, at, n, t);
    if t != [] {
      ValidHead(t);
      assert r[at] == t[0];
    }
    assert forall i :: 0 <= i < at ==> r[i] == s[i];
    assert forall i :: at + n <= i < |s| ==> r[i - n + |t|] == s[i];
  }

  lemma AfterMatch(s: bytes, needle: bytes)
    requires Valid(s) && Valid(needle) && needle <= s
    ensures IsBoundary(s, |needle|)
  {
    var rest := s[|needle|..];
    assert s == needle + rest;
    ValidDrop(needle, rest);
    if rest != [] {
      ValidHead(rest);
    }
  }

  /** A valid needle found in a valid text starts and ends on boundaries. */
  lemma MatchOnBoundaries(s: bytes, needle: bytes, i: nat)
    requires Valid(s) && Valid(needle) && needle != []
    requires i + |needle| <= |s| && s[i..i + |needle|] == needle
    ensures IsBoundary(s, i) && IsBoundary(s, i + |needle|)
  {
    var j := i + |needle|;
    ValidHead(needle);
    assert s[i] == s[i..j][0];
    ValidCut(s, i);
    AfterMatch(s[i..], needle);
  }

  /** A code point has at most three continuation bytes, so of any four
      consecutive offsets of a valid text one is a boundary. */
  lemma {:induction false} BoundaryNear(s: bytes, i: nat)
    requires Valid(s) && 3 <= i <= |s|
    ensures exists j :: i - 3 <= j <= i && IsBoundary(s, j)
    decreases |s|
  {
    HeadShape(s);
    var k := Decode(s).used;
    if i - k < 3 {
      if k <= i {
        assert IsBoundary(s, k) by {
          if k < |s| { ValidHead(s[k..]); }
        }
      } else {
        assert IsBoundary(s, 0);
      }
    } else {
      BoundaryNear(s[k..], i - k);
      var j :| i - k - 3 <= j <= i - k && IsBoundary(s[k..], j);
      assert IsBoundary(s, j + k);
    }
  }

  /** The offset after a code point of a valid text is a boundary, and no
      offset strictly inside it is. */
  lemma NextBoundary(s: bytes, i: nat)
    requires Valid(s) && i < |s| && IsBoundary(s, i)
    ensures var k := Decode(s[i..]).used;
            GoodHead(s[i..]) && i + k <= |s| && IsBoundary(s, i + k)
            && forall j :: i < j < i + k ==> !IsBoundary(s, j)
  {
    ValidCut(s, i);
    HeadShape(s[i..]);
    var k := Decode(s[i..]).used;
    if i + k < |s| {
      ValidHead(s[i..][k..]);
    }
    forall j | i < j < i + k
      ensures !IsBoundary(s, j)
    {
      assert IsCont(s[i..][j - i]);
    }
  }

  /** Decoding at a boundary looks no further than the next boundary. */
  lemma DecodeInChunk(s: bytes, i: nat, z: nat)
    requires Valid(s) && i < z <= |s| && IsBoundary(s, i) && IsBoundary(s, z)
    ensures Decode(s[i..z]) == Decode(s[i..]) && i + Decode(s[i..]).used <= z
  {
    NextBoundary(s, i);
    assert s[i..z] == s[i..][..z - i];
    HeadLocal(s[i..], s[i..z]);
  }

  /** The offsets that cut no code point are those before which valid text
      stands. */
  lemma BoundaryIsPrefix(s: bytes, i: nat)
    requires Valid(s) && i <= |s|
    ensures IsBoundary(s, i) <==> Valid(s[..i])
  {
    if IsBoundary(s, i) {
      ValidCut(s, i);
    } else if Valid(s[..i]) {
      assert s == s[..i] + s[i..];
      ValidDrop(s[..i], s[i..]);
      ValidHead(s[i..]);
    }
  }

  /** The code points counted are the scalars of the text. */
  lemma {:induction false} CharsAreScalars(s: bytes)
    requires Valid(s)
    ensures Count(Starts, s) == |DecodeAll(s)|
    decreases |s|
  {
    if s != [] {
      HeadShape(s);
      var k := Decode(s).used;
      CountSplit(Starts, s, k);
      CharsAreScalars(s[k..]);
      CountSplit(Starts, s[..k], 1);
      assert s[..k][..1] == [s[0]];
      assert [s[0]][..0] == [];
      forall i | 0 <= i < k - 1
        ensures !Hit(Starts, s[..k][1..][i])
      {
        assert IsCont(s[i + 1]);
      }
      NoHitsCount(Starts, s[..k][1..]);
    }
  }
}
