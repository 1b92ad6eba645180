/** Raw non-ASCII turned into JSON escapes before strict parsing. */
module Json {
  import opened Bytes
  import opened Utf8

  /** A UTF-16 code unit. */
  type unit16 = x: int | 0 <= x < 0x10000
  type units = seq<unit16>

  const ESC: byte := 92
  const U: byte := 117

  // ---- UTF-16 and hexadecimal ---------------------------------------------------

  function Utf16(c: scalar): units {
    assert IsScalar(c);
    if c < 0x10000 then
      var x: unit16 := c;
      [x]
    else
      var high: unit16 := 0xD800 + (c - 0x10000) / 1024;
      var low: unit16 := 0xDC00 + (c - 0x10000) % 1024;
      [high, low]
  }

  function HexDigit(d: nat): byte
    requires d < 16
  {
    if d < 10 then 48 + d else 87 + d
  }

  function HexValue(b: byte): int {
    if 48 <= b <= 57 then b - 48
    else if 97 <= b <= 102 then b - 87
    else if 65 <= b <= 70 then b - 55
    else -1
  }

  function Hex4(x: unit16): bytes {
    [HexDigit(x / 4096), HexDigit(x / 256 % 16), HexDigit(x / 16 % 16), HexDigit(x % 16)]
  }

  /** \uXXXX. */
  function EscapeUnit(x: unit16): bytes {
    [ESC, U] + Hex4(x)
  }

  function EscapeUnits(xs: units): bytes {
    if xs == [] then [] else EscapeUnit(xs[0]) + EscapeUnits(xs[1..])
  }

  // ---- Unescaping a string body (section 7 of RFC 8259) ----------------------------

  datatype Parsed = Malformed | Parsed(value: units)

  function Prepend(xs: units, r: Parsed): Parsed {
    if r.Parsed? then Parsed(xs + r.value) else Malformed
  }

  /** The character a two-byte escape stands for; -1 for none. */
  function Simple(b: byte): int {
    if b == 34 || b == 92 || b == 47 then b
    else if b == 98 then 8
    else if b == 102 then 12
    else if b == 110 then 10
    else if b == 114 then 13
    else if b == 116 then 9
    else -1
  }

  predicate HexAt(s: bytes)
  {
    |s| >= 6 && HexValue(s[2]) >= 0 && HexValue(s[3]) >= 0 && HexValue(s[4]) >= 0 && HexValue(s[5]) >= 0
  }

  function HexUnit(s: bytes): unit16
    requires HexAt(s)
  {
    HexValue(s[2]) * 4096 + HexValue(s[3]) * 256 + HexValue(s[4]) * 16 + HexValue(s[5])
  }

  /** The code units a JSON string body in valid UTF-8 stands for. Strict JSON
      rejects a backslash before a raw non-ASCII character; `lenient` reads it
      as that character's escape sequence behind a literal backslash. */
  function Unescape(s: bytes, lenient: bool): Parsed
    decreases |s|
  {
    if s == [] then Parsed([])
    else if s[0] >= 0x80 then
      if !GoodHead(s) then Malformed
      else Prepend(Utf16(Code(s)), Unescape(s[Decode(s).used..], lenient))
    else if s[0] == 34 || s[0] < 32 then Malformed
    else if s[0] != ESC then Prepend([s[0]], Unescape(s[1..], lenient))
    else if |s| == 1 then Malformed
    else if s[1] == U then
      if HexAt(s) then Prepend([HexUnit(s)], Unescape(s[6..], lenient)) else Malformed
    else if s[1] >= 0x80 then
      if !lenient || !GoodHead(s[1..]) then Malformed
      else Prepend(Stray(Code(s[1..])), Unescape(s[1..][Decode(s[1..]).used..], lenient))
    else if Simple(s[1]) >= 0 then Prepend([SimpleUnit(s[1])], Unescape(s[2..], lenient))
    else Malformed
  }

  function Code(s: bytes): scalar
    requires s != [] && GoodHead(s)
  {
    EncodeDecode(s);
    Decode(s).code
  }

  function SimpleUnit(b: byte): unit16
    requires Simple(b) >= 0
  {
    Simple(b)
  }

  /** The first escape sequence read as plain text, the second as an escape. */
  function Stray(c: scalar): units {
    AsUnits(EscapeUnit(Utf16(c)[0])) + Utf16(c)[1..]
  }

  function AsUnits(s: bytes): units {
    seq(|s|, i requires 0 <= i < |s| => AsUnit(s[i]))
  }

  function AsUnit(b: byte): unit16 {
    b
  }

  // ---- strict_json_ascii --------------------------------------------------------------

  function Normalise(s: bytes): bytes {
    if s == [] then []
    else if s[0] < 0x80 then [s[0]] + Normalise(s[1..])
    else if !GoodHead(s) then s
    else EscapeUnits(Utf16(Code(s))) + Normalise(s[Decode(s).used..])
  }

  predicate Ascii(s: bytes) {
    forall i :: 0 <= i < |s| ==> s[i] < 0x80
  }

  /** Raw non-ASCII right behind an escaping backslash. */
  predicate NoStray(s: bytes) {
    if s == [] then true
    else if s[0] == ESC then |s| == 1 || (s[1] < 0x80 && NoStray(s[2..]))
    else NoStray(s[1..])
  }

  lemma EscapeUnitsLength(c: scalar)
    ensures var xs := Utf16(c);
            && 1 <= |xs| <= 2 && (c < 0x10000 <==> |xs| == 1)
            && |EscapeUnits(xs)| == 6 * |xs| && Ascii(EscapeUnits(xs))
  {
    var xs := Utf16(c);
    assert EscapeUnits(xs[1..]) == if |xs| == 1 then [] else EscapeUnit(xs[1]) + EscapeUnits(xs[1..][1..]);
  }

  /** The output is plain ASCII and at most three times as long. */
  lemma {:induction false} NormaliseAscii(s: bytes)
    requires Valid(s)
    ensures Ascii(Normalise(s)) && |Normalise(s)| <= 3 * |s|
    decreases |s|
  {
    if s == [] {
    } else if s[0] < 0x80 {
      ValidTail(s);
      NormaliseAscii(s[1..]);
    } else {
      NormaliseAscii(s[Decode(s).used..]);
      EscapeUnitsLength(Code(s));
      LongForm(s);
    }
  }

  lemma ValidTail(s: bytes)
    requires Valid(s) && s != [] && s[0] < 0x80
    ensures Valid(s[1..])
  {
  }

  /** A supplementary code point takes four bytes. */
  lemma LongForm(s: bytes)
    requires s != [] && GoodHead(s) && s[0] >= 0x80
    ensures Decode(s).used >= 2 && (Code(s) >= 0x10000 ==> Decode(s).used == 4)
  {
    EncodeDecode(s);
  }

  lemma NormaliseLow(s: bytes)
    requires s != [] && s[0] < 0x80
    ensures Normalise(s) == [s[0]] + Normalise(s[1..])
  {
  }

  lemma NormaliseHigh(s: bytes)
    requires s != [] && s[0] >= 0x80 && GoodHead(s)
    ensures Normalise(s) == EscapeUnits(Utf16(Code(s))) + Normalise(s[Decode(s).used..])
  {
  }

  lemma ValidAfterHead(s: bytes)
    requires Valid(s) && s != []
    ensures GoodHead(s) && Valid(s[Decode(s).used..])
  {
  }

  lemma Associate(a: bytes, b: bytes, c: bytes)
    ensures a + b + c == a + (b + c)
  {
  }

  lemma {:induction false} NormaliseConcat(a: bytes, b: bytes)
    requires Valid(a)
    ensures Normalise(a + b) == Normalise(a) + Normalise(b)
    decreases |a|
  {
    hide Valid, Normalise, Decode, GoodHead, EscapeUnits, Utf16, Code;
    if a == [] {
      NormaliseEmpty();
      assert a + b == b;
    } else if a[0] < 0x80 {
      ValidTail(a);
      assert (a + b)[1..] == a[1..] + b;
      NormaliseConcat(a[1..], b);
      NormaliseLow(a);
      NormaliseLow(a + b);
      Associate([a[0]], Normalise(a[1..]), Normalise(b));
    } else {
      ValidAfterHead(a);
      HeadLocal(a, a + b);
      var k := Decode(a).used;
      assert (a + b)[k..] == a[k..] + b;
      NormaliseConcat(a[k..], b);
      NormaliseHigh(a);
      NormaliseHigh(a + b);
      SameCode(a, a + b);
      Associate(EscapeUnits(Utf16(Code(a))), Normalise(a[k..]), Normalise(b));
    }
  }

  lemma SameCode(a: bytes, s: bytes)
    requires a != [] && s != [] && GoodHead(a) && GoodHead(s) && Decode(a) == Decode(s)
    ensures Code(a) == Code(s)
  {
  }

  /** The loop of strict_json_ascii, filling a buffer of 3n + 1 bytes; a line
      that is all ASCII is used as it is. */
  method StrictJsonAscii(line: bytes) returns (out: bytes)
    requires Valid(line)
    ensures out == Normalise(line)
  {
    var nonAscii := AnyNonAscii(line);
    if !nonAscii {
      NormalisePlain(line);
      return line;
    }
    hide Valid, Normalise, EscapeUnits, Utf16;
    var n := |line|;
    var buffer := new byte[n * 3 + 1](_ => 0);
    var j: nat, i: nat := 0, 0;
    NormaliseEmpty();
    FirstOffset(line);
    while i < n
      invariant i <= n && j <= 3 * i && IsBoundary(line, i)
      invariant buffer[..j] == Normalise(line[..i])
    {
      j, i := PutOne(buffer, j, line, i);
    }
    assert line[..n] == line;
    return buffer[..j];
  }

  /** One turn of the loop. */
  method PutOne(buffer: array<byte>, at: nat, line: bytes, i: nat) returns (j: nat, next: nat)
    requires Valid(line) && i < |line| && IsBoundary(line, i)
    requires at <= 3 * i && buffer.Length == 3 * |line| + 1 && buffer[..at] == Normalise(line[..i])
    modifies buffer
    ensures i < next <= |line| && j <= 3 * next && IsBoundary(line, next)
    ensures buffer[..j] == Normalise(line[..next])
  {
    hide Valid, Normalise, EscapeUnits, Utf16;
    NormaliseStep(line, i);
    NormaliseRoom(line, i);
    if line[i] < 128 {
      buffer[at] := line[i];
      assert buffer[..at + 1] == buffer[..at] + [line[i]];
      return at + 1, i + 1;
    }
    var c, used := Utf8Decode(line[i..]);
    j := PutEscapes(buffer, at, c);
    next := i + used;
  }

  method AnyNonAscii(s: bytes) returns (any: bool)
    ensures any == !Ascii(s)
  {
    any := false;
    var i := 0;
    while i < |s|
      invariant 0 <= i <= |s| && Ascii(s[..i])
    {
      if s[i] >= 128 { return true; }
      assert forall k :: 0 <= k < i ==> s[..i][k] == s[k];
      i := i + 1;
    }
    assert s[..i] == s;
  }

  /** One code point written as one or two escape sequences. */
  method PutEscapes(buffer: array<byte>, at: nat, c: nat) returns (j: nat)
    requires IsScalar(c) && at + 6 * |Utf16(c)| <= buffer.Length
    modifies buffer
    ensures j == at + 6 * |Utf16(c)| <= buffer.Length
    ensures buffer[..j] == old(buffer[..at]) + EscapeUnits(Utf16(c))
  {
    EscapeUnitsLength(c);
    var xs: units;
    if c > 0xffff {
      var d := c - 0x10000;
      var high: unit16 := 0xd800 + d / 1024;
      var low: unit16 := 0xdc00 + d % 1024;
      xs := [high, low];
    } else {
      var x: unit16 := c;
      xs := [x];
    }
    j := PutUnit(buffer, at, xs[0]);
    if |xs| == 2 {
      j := PutUnit(buffer, j, xs[1]);
      assert EscapeUnits(xs) == EscapeUnit(xs[0]) + EscapeUnit(xs[1]) by {
        assert xs[1..] == [xs[1]] && xs[1..][1..] == [];
      }
    } else {
      assert EscapeUnits(xs) == EscapeUnit(xs[0]) by { assert xs[1..] == []; }
    }
  }

  method PutUnit(buffer: array<byte>, at: nat, x: unit16) returns (j: nat)
    requires at + 6 <= buffer.Length
    modifies buffer
    ensures j == at + 6 && buffer[..j] == old(buffer[..at]) + EscapeUnit(x)
  {
    buffer[at], buffer[at + 1] := ESC, U;
    buffer[at + 2], buffer[at + 3] := HexDigit(x / 4096), HexDigit(x / 256 % 16);
    buffer[at + 4], buffer[at + 5] := HexDigit(x / 16 % 16), HexDigit(x % 16);
    j := at + 6;
  }

  lemma NormaliseEmpty()
    ensures Normalise([]) == []
  {
  }

  lemma FirstOffset(s: bytes)
    requires Valid(s)
    ensures IsBoundary(s, 0) && s[..0] == []
  {
    if s != [] { ValidHead(s); }
  }

  lemma {:induction false} NormalisePlain(s: bytes)
    requires Ascii(s)
    ensures Normalise(s) == s
  {
    if s != [] { NormalisePlain(s[1..]); }
  }

  /** The bytes of the code point that starts at offset i. */
  function Chunk(s: bytes, i: nat): bytes
    requires i < |s|
  {
    s[i..Min(i + Decode(s[i..]).used, |s|)]
  }

  /** The output for one code point. */
  function Written(d: bytes): bytes
    requires d != [] && GoodHead(d)
  {
    if d[0] < 0x80 then [d[0]] else EscapeUnits(Utf16(Code(d)))
  }

  lemma ChunkHead(s: bytes, i: nat)
    requires Valid(s) && i < |s| && IsBoundary(s, i)
    ensures var d := Chunk(s, i);
            && i + |d| <= |s| && IsBoundary(s, i + |d|) && Valid(d) && Valid(s[..i])
            && d != [] && GoodHead(d) && |d| == Decode(d).used
            && Decode(d) == Decode(s[i..]) && d == s[i..i + |d|]
  {
    hide Valid, Decode, GoodHead, Chunk;
    NextBoundary(s, i);
    var k := Decode(s[i..]).used;
    ValidCut(s, i);
    ChunkIs(s, i, k);
    ValidSlice(s, i, i + k);
    DecodeInChunk(s, i, i + k);
    ValidAfterHead(Chunk(s, i));
  }

  lemma ChunkIs(s: bytes, i: nat, k: nat)
    requires i < |s| && k == Decode(s[i..]).used && i + k <= |s|
    ensures Chunk(s, i) == s[i..i + k] && |Chunk(s, i)| == k
  {
    hide Decode;
  }

  /** The output for one more code point. */
  lemma NormaliseStep(s: bytes, i: nat)
    requires Valid(s) && i < |s| && IsBoundary(s, i)
    ensures GoodHead(s[i..]) && Chunk(s, i) != [] && GoodHead(Chunk(s, i))
    ensures var d := Chunk(s, i);
            && i + |d| <= |s| && IsBoundary(s, i + |d|) && |d| == Decode(s[i..]).used
            && d[0] == s[i] && Code(d) == Code(s[i..])
            && Normalise(s[..i + |d|]) == Normalise(s[..i]) + Written(d)
  {
    hide Valid, Normalise, Decode, GoodHead, EscapeUnits, Utf16, Code, Chunk;
    ChunkHead(s, i);
    NextBoundary(s, i);
    var d := Chunk(s, i);
    assert s[..i + |d|] == s[..i] + d;
    NormaliseConcat(s[..i], d);
    NormaliseOne(d);
    SameCode(d, s[i..]);
  }

  lemma NormaliseRoom(s: bytes, i: nat)
    requires i < |s| && GoodHead(s[i..])
    ensures s[i] < 0x80 ==> Decode(s[i..]).used == 1
    ensures s[i] >= 0x80 ==> 6 * |Utf16(Code(s[i..]))| <= 3 * Decode(s[i..]).used
  {
    if s[i] >= 0x80 { LongForm(s[i..]); }
  }

  lemma NormaliseOne(d: bytes)
    requires d != [] && GoodHead(d) && |d| == Decode(d).used
    ensures Normalise(d) == Written(d)
  {
    hide EscapeUnits, Utf16;
    assert d[|d|..] == [];
  }

  // ---- Meaning -------------------------------------------------------------------------

  lemma HexDigitValue(d: nat)
    requires d < 16
    ensures HexValue(HexDigit(d)) == d && HexDigit(d) != ESC && 32 <= HexDigit(d) < 0x80 && HexDigit(d) != 34
  {
  }

  lemma Hex4Value(x: unit16)
    ensures var s := EscapeUnit(x); HexAt(s) && HexUnit(s) == x && |s| == 6
  {
    HexDigitValue(x / 4096);
    HexDigitValue(x / 256 % 16);
    HexDigitValue(x / 16 % 16);
    HexDigitValue(x % 16);
    hide HexDigit, HexValue;
    FourDigits(x);
  }

  lemma FourDigits(x: nat)
    ensures x == x / 4096 * 4096 + x / 256 % 16 * 256 + x / 16 % 16 * 16 + x % 16
  {
    assert x / 256 == x / 4096 * 16 + x / 256 % 16;
    assert x / 16 == x / 256 * 16 + x / 16 % 16;
  }

  lemma UnescapeUnit(x: unit16, t: bytes)
    ensures Unescape(EscapeUnit(x) + t, false) == Prepend([x], Unescape(t, false))
  {
    var e := EscapeUnit(x);
    Hex4Value(x);
    var s := e + t;
    assert s[6..] == t;
    assert HexAt(s) && HexUnit(s) == HexUnit(e);
  }

  lemma PrependTwice(xs: units, ys: units, r: Parsed)
    ensures Prepend(xs, Prepend(ys, r)) == Prepend(xs + ys, r)
  {
    if r.Parsed? { assert xs + (ys + r.value) == xs + ys + r.value; }
  }

  lemma {:induction false} UnescapeUnits(xs: units, t: bytes)
    ensures Unescape(EscapeUnits(xs) + t, false) == Prepend(xs, Unescape(t, false))
  {
    var r := Unescape(t, false);
    if xs == [] {
      assert EscapeUnits(xs) + t == t;
      if r.Parsed? { assert xs + r.value == r.value; }
    } else {
      assert EscapeUnits(xs) + t == EscapeUnit(xs[0]) + (EscapeUnits(xs[1..]) + t);
      UnescapeUnit(xs[0], EscapeUnits(xs[1..]) + t);
      UnescapeUnits(xs[1..], t);
      PrependTwice([xs[0]], xs[1..], r);
      assert [xs[0]] + xs[1..] == xs;
    }
  }

  /** Bytes that stand for themselves. */
  predicate PlainText(s: bytes) {
    forall i :: 0 <= i < |s| ==> 32 <= s[i] < 0x80 && s[i] != 34 && s[i] != ESC
  }

  lemma {:induction false} UnescapePlain(s: bytes, t: bytes)
    requires PlainText(s)
    ensures Unescape(s + t, false) == Prepend(AsUnits(s), Unescape(t, false))
  {
    var r := Unescape(t, false);
    if s == [] {
      assert s + t == t && AsUnits(s) == [];
      if r.Parsed? { assert [] + r.value == r.value; }
    } else {
      assert (s + t)[1..] == s[1..] + t;
      UnescapePlain(s[1..], t);
      PrependTwice([AsUnit(s[0])], AsUnits(s[1..]), r);
      assert AsUnits(s) == [AsUnit(s[0])] + AsUnits(s[1..]);
    }
  }

  /** A backslash before escape sequences: `\\`, then the first one's text. */
  lemma UnescapeStray(c: scalar, t: bytes)
    ensures Unescape([ESC] + EscapeUnits(Utf16(c)) + t, false) == Prepend(Stray(c), Unescape(t, false))
  {
    var xs := Utf16(c);
    EscapeUnitsLength(c);
    var e := EscapeUnit(xs[0]);
    var rest := EscapeUnits(xs[1..]) + t;
    var text := e[1..];
    var s := [ESC] + EscapeUnits(xs) + t;
    assert s == [ESC, ESC] + (text + rest);
    assert s[2..] == text + rest;
    assert Unescape(s, false) == Prepend([SimpleUnit(ESC)], Unescape(text + rest, false));
    HexDigitValue(xs[0] / 4096);
    HexDigitValue(xs[0] / 256 % 16);
    HexDigitValue(xs[0] / 16 % 16);
    HexDigitValue(xs[0] % 16);
    UnescapePlain(text, rest);
    UnescapeUnits(xs[1..], t);
    PrependTwice(AsUnits(text), xs[1..], Unescape(t, false));
    PrependTwice([SimpleUnit(ESC)], AsUnits(text) + xs[1..], Unescape(t, false));
    assert AsUnits(e) == [SimpleUnit(ESC)] + AsUnits(text);
    assert [SimpleUnit(ESC)] + (AsUnits(text) + xs[1..]) == Stray(c);
  }

  lemma AsciiTail(b: byte, u: bytes)
    requires Ascii([b] + u)
    ensures Ascii(u)
  {
    var s := [b] + u;
    forall i | 0 <= i < |u|
      ensures u[i] < 0x80
    {
      assert s[i + 1] == u[i];
    }
  }

  /** Leading ASCII is copied. */
  lemma {:induction false} AsciiPrefix(s: bytes, k: nat)
    requires Valid(s) && k <= |s| && Ascii(s[..k])
    ensures Valid(s[k..]) && Normalise(s) == s[..k] + Normalise(s[k..])
  {
    hide Valid, Normalise, Decode, Utf16, EscapeUnits;
    if k == 0 {
      assert s[0..] == s && s[..0] + Normalise(s) == Normalise(s);
    } else {
      assert s[0] == s[..k][0];
      ValidTail(s);
      var t := s[1..];
      assert s[..k] == [s[0]] + t[..k - 1];
      AsciiTail(s[0], t[..k - 1]);
      AsciiPrefix(t, k - 1);
      NormaliseLow(s);
      assert t[k - 1..] == s[k..];
      Associate([s[0]], t[..k - 1], Normalise(s[k..]));
    }
  }

  /** Length of the leading ASCII run, up to a limit. */
  function Run(s: bytes, limit: nat): (k: nat)
    ensures k <= limit && k <= |s| && Ascii(s[..k])
    ensures k == limit || k == |s| || s[k] >= 0x80
  {
    if limit == 0 || |s| == 0 then 0
    else
      var k := Run(s, limit - 1);
      if k < limit - 1 || k == |s| || s[k] >= 0x80 then k
      else
        assert forall i :: 0 <= i < k ==> s[..k + 1][i] == s[..k][i];
        k + 1
  }

  /** A raw non-ASCII character starts with a backslash in the output. */
  lemma RawStart(s: bytes)
    requires Valid(s) && s != [] && s[0] >= 0x80
    ensures Normalise(s) != [] && Normalise(s)[0] == ESC
  {
    EscapeUnitsLength(Code(s));
    assert EscapeUnits(Utf16(Code(s)))[0] == ESC;
  }

  /** After `\u`, four hexadecimal digits stand in the output exactly when they
      stand in the input. */
  lemma HexKept(s: bytes)
    requires Valid(s) && |s| >= 2 && s[0] == ESC && s[1] == U
    ensures var n := Normalise(s);
            && HexAt(n) == HexAt(s)
            && (HexAt(s) ==> Valid(s[6..]) && n == s[..6] + Normalise(s[6..]))
            && |n| >= 2 && n[0] == ESC && n[1] == U
  {
    hide Valid, Normalise;
    var k := Run(s, 6);
    assert k >= 2;
    AsciiPrefix(s, k);
    if k == |s| {
      NormaliseEmpty();
    } else if k < 6 {
      RawStart(s[k..]);
      assert Normalise(s)[k] == ESC;
    }
  }

  // ---- The theorem -----------------------------------------------------------------------

  /** For every body in valid UTF-8, reading the normalised one strictly is
      reading the original leniently. */
  lemma {:induction false} NormaliseMeaning(s: bytes)
    requires Valid(s)
    ensures Unescape(Normalise(s), false) == Unescape(s, true)
    decreases |s|
  {
    if s == [] {
    } else if s[0] >= 0x80 {
      var rest := s[Decode(s).used..];
      UnescapeUnits(Utf16(Code(s)), Normalise(rest));
      NormaliseMeaning(rest);
    } else if s[0] != ESC {
      ValidTail(s);
      NormaliseMeaning(s[1..]);
      assert Normalise(s)[1..] == Normalise(s[1..]);
    } else {
      ValidTail(s);
      EscapeMeaning(s);
    }
  }

  /** The case of a backslash. */
  lemma {:induction false} EscapeMeaning(s: bytes)
    requires Valid(s) && s != [] && s[0] == ESC && Valid(s[1..])
    ensures Unescape(Normalise(s), false) == Unescape(s, true)
    decreases |s|, 1
  {
    hide Valid;
    var t := s[1..];
    assert Normalise(s) == [ESC] + Normalise(t);
    if t == [] {
    } else if t[0] >= 0x80 {
      StrayMeaning(s);
    } else {
      ValidSecond(s);
      assert Normalise(t) == [t[0]] + Normalise(s[2..]);
      if s[1] == U {
        HexKept(s);
        if HexAt(s) {
          NormaliseMeaning(s[6..]);
          assert Normalise(s)[6..] == Normalise(s[6..]);
        }
      } else {
        NormaliseMeaning(s[2..]);
        assert Normalise(s)[2..] == Normalise(s[2..]);
      }
    }
  }

  lemma ValidSecond(s: bytes)
    requires |s| >= 2 && Valid(s[1..]) && s[1] < 0x80
    ensures Valid(s[2..]) && s[1..][1..] == s[2..]
  {
    assert s[1..][1..] == s[2..];
    ValidTail(s[1..]);
  }

  lemma {:induction false} StrayMeaning(s: bytes)
    requires |s| >= 2 && s[0] == ESC && s[1] >= 0x80 && Valid(s[1..])
    ensures Unescape(Normalise(s), false) == Unescape(s, true)
    decreases |s|, 0
  {
    hide Valid, Normalise, Decode, GoodHead, Utf16, EscapeUnits, Stray, Code, Prepend;
    var t := s[1..];
    ValidAfterHead(t);
    var rest := t[Decode(t).used..];
    NormaliseMeaning(rest);
    UnescapeStray(Code(t), Normalise(rest));
    NormaliseLow(s);
    NormaliseHigh(t);
    Associate([ESC], EscapeUnits(Utf16(Code(t))), Normalise(rest));
    StrayRead(s);
  }

  lemma StrayRead(s: bytes)
    requires |s| >= 2 && s[0] == ESC && s[1] >= 0x80 && GoodHead(s[1..])
    ensures Unescape(s, true) == Prepend(Stray(Code(s[1..])), Unescape(s[1..][Decode(s[1..]).used..], true))
  {
  }

  /** Well-formed JSON has no stray escape, and without one the two readings
      agree. */
  lemma {:induction false} StrayReadings(s: bytes)
    ensures Unescape(s, false).Parsed? ==> NoStray(s)
    ensures NoStray(s) ==> Unescape(s, true) == Unescape(s, false)
    decreases |s|
  {
    if s == [] {
    } else if s[0] >= 0x80 {
      if GoodHead(s) {
        HeadShape(s);
        StrayReadings(s[Decode(s).used..]);
        NoStrayAfter(s, Decode(s).used);
      }
    } else if s[0] != ESC {
      StrayReadings(s[1..]);
    } else if |s| > 1 && s[1] < 0x80 {
      if s[1] == U && HexAt(s) {
        StrayReadings(s[6..]);
        assert s[2..][4..] == s[6..];
        NoStrayAfter(s[2..], 4);
      } else if s[1] != U {
        StrayReadings(s[2..]);
      }
    }
  }

  /** Bytes other than backslashes do not matter to NoStray. */
  lemma {:induction false} NoStrayAfter(s: bytes, k: nat)
    requires k <= |s| && ESC !in s[..k]
    ensures NoStray(s) == NoStray(s[k..])
  {
    if k == 0 {
      assert s[0..] == s;
    } else {
      assert s[0] == s[..k][0] && s[1..][..k - 1] == s[..k][1..];
      NoStrayAfter(s[1..], k - 1);
      assert s[1..][k - 1..] == s[k..];
    }
  }

  /** Normalising keeps what a string body stands for exactly when no backslash
      escapes a raw non-ASCII character, or the body is malformed beyond that;
      in particular it does for every well-formed body. */
  lemma NormaliseKeepsMeaning(s: bytes)
    requires Valid(s)
    ensures Unescape(Normalise(s), false) == Unescape(s, false) <==> NoStray(s) || Unescape(s, true).Malformed?
    ensures Unescape(s, false).Parsed? ==> Unescape(Normalise(s), false) == Unescape(s, false)
  {
    NormaliseMeaning(s);
    StrayReadings(s);
  }

  /** A malformed body that becomes well formed: a backslash before U+00E9. */
  lemma StrayExample()
    ensures var s: bytes := [ESC, 0xC3, 0xA9];
            Valid(s) && Unescape(s, false) == Malformed
            && Unescape(Normalise(s), false) == Parsed([92, 117, 48, 48, 101, 57])
  {
    var s: bytes := [ESC, 0xC3, 0xA9];
    var t: bytes := [0xC3, 0xA9];
    assert s[1..] == t && t == Encode(0xE9) + [];
    DecodeEncode(0xE9, []);
    assert t[2..] == [];
    assert Valid(t) && Valid(s);
    NormaliseMeaning(s);
    assert Code(t) == 0xE9;
    hide Decode, Normalise, Valid;
    StrayE9();
    assert s[1..][2..] == [];
    assert Unescape(s, true) == Parsed(Stray(0xE9) + []);
  }

  lemma StrayE9()
    ensures Stray(0xE9) == [92, 117, 48, 48, 101, 57] && Stray(0xE9) + [] == Stray(0xE9)
  {
    var x: unit16 := 0xE9;
    assert Utf16(0xE9) == [x] && [x][1..] == [];
    assert Stray(0xE9) == AsUnits(EscapeUnit(x)) + [];
  }

  // ---- The same in scalar values ----------------------------------------------------------

  predicate High(x: unit16) {
    0xD800 <= x <= 0xDBFF
  }

  predicate Low(x: unit16) {
    0xDC00 <= x <= 0xDFFF
  }

  /** The scalar a surrogate pair stands for (section 2.1 of RFC 2781). */
  function Pair(high: unit16, low: unit16): int {
    0x10000 + (high - 0xD800) * 1024 + (low - 0xDC00)
  }

  /** What a sequence of code units says; an unpaired surrogate says itself. */
  function ReadUnits(xs: units): seq<int> {
    if xs == [] then []
    else if High(xs[0]) && |xs| > 1 && Low(xs[1]) then [Pair(xs[0], xs[1])] + ReadUnits(xs[2..])
    else [xs[0]] + ReadUnits(xs[1..])
  }

  /** The code units of a scalar value are read as that value. */
  lemma Utf16Read(c: scalar, rest: units)
    ensures ReadUnits(Utf16(c) + rest) == [c] + ReadUnits(rest)
  {
    var xs := Utf16(c);
    assert IsScalar(c);
    if c >= 0x10000 {
      assert (xs + rest)[2..] == rest;
      assert Pair(xs[0], xs[1]) == c;
    } else {
      assert (xs + rest)[1..] == rest;
    }
  }

  /** What a body is made of: raw characters and escape sequences. */
  datatype Item = Raw(code: scalar) | Escaped(x: unit16)

  function Items(s: bytes): seq<Item>
    requires Unescape(s, false).Parsed?
    decreases |s|
  {
    if s == [] then []
    else if s[0] >= 0x80 then [Raw(Code(s))] + Items(s[Decode(s).used..])
    else if s[0] != ESC then [Raw(s[0])] + Items(s[1..])
    else if s[1] == U then [Escaped(HexUnit(s))] + Items(s[6..])
    else [Escaped(SimpleUnit(s[1]))] + Items(s[2..])
  }

  /** A raw character is itself; two escape sequences may be a surrogate pair. */
  function ReadItems(items: seq<Item>): seq<int> {
    if items == [] then []
    else
      match items[0]
      case Raw(c) => [c] + ReadItems(items[1..])
      case Escaped(x) =>
        if High(x) && |items| > 1 && items[1].Escaped? && Low(items[1].x) then
          [Pair(x, items[1].x)] + ReadItems(items[2..])
        else [x] + ReadItems(items[1..])
  }

  function ItemUnits(item: Item): units {
    match item
    case Raw(c) => Utf16(c)
    case Escaped(x) => [x]
  }

  function AllUnits(items: seq<Item>): units {
    if items == [] then [] else ItemUnits(items[0]) + AllUnits(items[1..])
  }

  lemma AllUnitsCons(item: Item, items: seq<Item>)
    ensures AllUnits([item] + items) == ItemUnits(item) + AllUnits(items)
  {
    assert ([item] + items)[1..] == items;
  }

  lemma {:induction false} UnescapeItems(s: bytes)
    requires Unescape(s, false).Parsed?
    ensures Unescape(s, false).value == AllUnits(Items(s))
    decreases |s|
  {
    hide Utf16, AllUnits, HexUnit, Simple, Decode;
    if s == [] {
      NoUnits();
    } else if s[0] >= 0x80 {
      UnescapeItems(s[Decode(s).used..]);
      AllUnitsCons(Raw(Code(s)), Items(s[Decode(s).used..]));
    } else if s[0] != ESC {
      UnescapeItems(s[1..]);
      AllUnitsCons(Raw(s[0]), Items(s[1..]));
      PlainUnit(s[0]);
    } else if s[1] == U {
      UnescapeItems(s[6..]);
      AllUnitsCons(Escaped(HexUnit(s)), Items(s[6..]));
    } else {
      UnescapeItems(s[2..]);
      AllUnitsCons(Escaped(SimpleUnit(s[1])), Items(s[2..]));
    }
  }

  lemma NoUnits()
    ensures AllUnits([]) == []
  {
  }

  lemma PlainUnit(b: byte)
    requires b < 0x80
    ensures Utf16(b) == [AsUnit(b)]
  {
  }

  /** The first unit of a raw character is no low surrogate. */
  lemma FirstUnit(items: seq<Item>)
    requires items != []
    ensures var xs := AllUnits(items); xs != [] && (Low(xs[0]) ==> items[0] == Escaped(xs[0]))
    ensures items[0].Escaped? ==> AllUnits(items) == [items[0].x] + AllUnits(items[1..])
  {
    if items[0].Raw? { assert IsScalar(items[0].code); }
  }

  /** Reading the units is reading the items. */
  lemma {:induction false} ReadBoth(items: seq<Item>)
    ensures ReadUnits(AllUnits(items)) == ReadItems(items)
    decreases |items|
  {
    hide Utf16;
    if items != [] {
      var xs, rest := AllUnits(items), AllUnits(items[1..]);
      ReadBoth(items[1..]);
      if items[0].Raw? {
        Utf16Read(items[0].code, rest);
      } else {
        assert xs[1..] == rest;
        if |items| > 1 {
          FirstUnit(items[1..]);
          if items[1].Escaped? {
            FirstUnit(items);
            assert items[1..][1..] == items[2..];
            assert xs[2..] == AllUnits(items[2..]);
            ReadBoth(items[2..]);
          }
        }
      }
    }
  }

  /** A body without a backslash is made of its own scalar values. */
  lemma {:induction false} RawBody(s: bytes)
    requires Valid(s) && Unescape(s, false).Parsed? && ESC !in s
    ensures ReadItems(Items(s)) == DecodeAll(s)
    decreases |s|
  {
    hide Utf16;
    if s != [] {
      var t := s[Decode(s).used..];
      RawBody(t);
      assert ([Raw(Code(s))] + Items(t))[1..] == Items(t);
      if s[0] < 0x80 { assert Raw(s[0]) == Raw(Code(s)); }
    }
  }

  /** Every well-formed body and its normalised form say the same scalar values:
      those its raw characters and escape sequences stand for, and for a body
      without escape sequences those of its text. */
  lemma NormaliseKeepsScalars(s: bytes)
    requires Valid(s) && Unescape(s, false).Parsed?
    ensures var n := Unescape(Normalise(s), false);
            n.Parsed? && ReadUnits(n.value) == ReadItems(Items(s)) && (ESC !in s ==> ReadUnits(n.value) == DecodeAll(s))
  {
    hide Valid, Normalise, Items, ReadItems, ReadUnits;
    NormaliseKeepsMeaning(s);
    UnescapeItems(s);
    ReadBoth(Items(s));
    if ESC !in s { RawBody(s); }
  }

  // ---- What is written, digit by digit ----------------------------------------------------

  /** The value of a lower-case hexadecimal digit; -1 for none. */
  ghost function DigitOf(b: byte): (d: int)
    ensures -1 <= d < 16 && (d >= 0 ==> "0123456789abcdef"[d] as int == b)
  {
    if d: nat :| d < 16 && "0123456789abcdef"[d] as int == b then d else -1
  }

  ghost function HexNumber(s: bytes): int {
    if s == [] then 0 else HexNumber(s[..|s| - 1]) * 16 + DigitOf(s[|s| - 1])
  }

  /** An escape sequence is a backslash, u, and four lower-case hexadecimal
      digits, the most significant first. */
  lemma EscapeForm(x: unit16)
    ensures var e := EscapeUnit(x);
            && |e| == 6 && e[0] == '\\' as int && e[1] == 'u' as int
            && (forall i :: 2 <= i < 6 ==> DigitOf(e[i]) >= 0) && HexNumber(e[2..]) == x
  {
    var h := Hex4(x);
    assert EscapeUnit(x)[2..] == h;
    HexDigitForm(x / 4096);
    HexDigitForm(x / 256 % 16);
    HexDigitForm(x / 16 % 16);
    HexDigitForm(x % 16);
    hide HexDigit, DigitOf;
    FourDigits(x);
    assert h[..3][..2] == h[..2] && h[..2][..1] == h[..1] && h[..1][..0] == [];
    assert HexNumber(h[..1]) == x / 4096;
    assert HexNumber(h[..2]) == x / 4096 * 16 + x / 256 % 16;
    assert HexNumber(h[..3]) == (x / 4096 * 16 + x / 256 % 16) * 16 + x / 16 % 16;
  }

  lemma HexDigitForm(d: nat)
    requires d < 16
    ensures "0123456789abcdef"[d] as int == HexDigit(d) && DigitOf(HexDigit(d)) == d
  {
  }

  /** The digits a reader accepts, in either case, and the two-character escape
      sequences with what they stand for (section 7 of RFC 8259). */
  lemma ReadTables(b: byte)
    ensures HexValue(b) >= 0 ==> HexValue(b) < 16 && (b as char == "0123456789abcdef"[HexValue(b)]
                                                      || b as char == "0123456789ABCDEF"[HexValue(b)])
    ensures forall d :: 0 <= d < 16 ==> HexValue("0123456789abcdef"[d] as int) == d
    ensures forall d :: 0 <= d < 16 ==> HexValue("0123456789ABCDEF"[d] as int) == d
    ensures Simple(b) >= 0 <==> b as char in "\"\\/bfnrt"
    ensures forall i :: 0 <= i < 8 ==> Simple("\"\\/bfnrt"[i] as int) == [0x22, 0x5C, 0x2F, 8, 12, 10, 13, 9][i]
  {
  }
}
