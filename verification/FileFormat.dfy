/** What is stored of a file when it is opened and written when it is saved. */
module FileFormat {
  import opened Bytes
  import opened Utf8
  import opened PieceTree
  import opened TextStore

  const BOM: bytes := [0xEF, 0xBB, 0xBF]

  /** A loaded file: its text and what saving must put back. */
  datatype Loaded = Rejected | Loaded(text: bytes, bom: bool, crlf: bool)

  /** The offset holds a newline with a carriage return before it. */
  predicate CrlfAt(s: bytes, i: nat) {
    0 < i < |s| && s[i] == LF && s[i - 1] == CR
  }

  /** A carriage return stands before every newline. */
  predicate AllCrlf(s: bytes) {
    forall i :: 0 <= i < |s| && s[i] == LF ==> CrlfAt(s, i)
  }

  /** Every newline has a carriage return before it, and there is one. */
  predicate UniformCrlf(s: bytes) {
    AllCrlf(s) && exists i :: 0 <= i < |s| && CrlfAt(s, i)
  }

  /** Drop each carriage return that stands before a newline. */
  function StripCr(s: bytes): bytes {
    if s == [] then []
    else if s[0] == CR && |s| > 1 && s[1] == LF then StripCr(s[1..])
    else [s[0]] + StripCr(s[1..])
  }

  /** Put a carriage return before each newline. */
  function AddCr(s: bytes): bytes {
    if s == [] then []
    else (if s[0] == LF then [CR, LF] else [s[0]]) + AddCr(s[1..])
  }

  /** The bytes editor_save writes. */
  function Saved(f: Loaded): bytes
    requires f.Loaded?
  {
    (if f.bom then BOM else []) + (if f.crlf then AddCr(f.text) else f.text)
  }

  // ---- Loading -----------------------------------------------------------------

  /** editor_open on the bytes of a regular file. */
  method Load(raw: bytes) returns (f: Loaded)
    ensures f.Rejected? <==> !Valid(Body(raw))
    ensures f.Loaded? ==> Valid(f.text) && f.bom == (BOM <= raw) && f.crlf == UniformCrlf(Body(raw))
    ensures f.Loaded? ==> f.text == if f.crlf then StripCr(Body(raw)) else Body(raw)
  {
    var bom := |raw| >= 3 && raw[0] == 0xEF && raw[1] == 0xBB && raw[2] == 0xBF;
    var s := raw;
    if bom { s := raw[3..]; }
    assert bom == (BOM <= raw) && s == Body(raw);
    var valid := Utf8Valid(s);
    if !valid { return Rejected; }
    hide Valid;
    var uniform := Detect(s);
    if !uniform { return Loaded(s, bom, false); }
    StripValid(s);
    var a := new byte[|s|](i requires 0 <= i < |s| => s[i]);
    assert a[..] == s;
    var n := StripInPlace(a);
    return Loaded(a[..n], bom, true);
  }

  function Body(raw: bytes): bytes {
    if BOM <= raw then raw[3..] else raw
  }

  /** The loop that looks at every newline. */
  method Detect(s: bytes) returns (uniform: bool)
    ensures uniform == UniformCrlf(s)
  {
    var crlf, anyLf := false, false;
    var i := 0;
    while i < |s|
      invariant 0 <= i <= |s|
      invariant crlf == exists k :: 0 <= k < i && CrlfAt(s, k)
      invariant anyLf == !(forall k :: 0 <= k < i && s[k] == LF ==> CrlfAt(s, k))
    {
      if s[i] == LF {
        if i > 0 && s[i - 1] == CR { assert CrlfAt(s, i); crlf := true; } else { assert !CrlfAt(s, i); anyLf := true; }
      }
      i := i + 1;
    }
    uniform := crlf && !anyLf;
  }

  /** The compaction loop, in place. */
  method StripInPlace(a: array<byte>) returns (j: nat)
    modifies a
    ensures j <= a.Length && a[..j] == StripCr(old(a[..]))
  {
    ghost var s := a[..];
    var n := a.Length;
    j := 0;
    var i := 0;
    while i < n
      invariant 0 <= j <= i <= n == a.Length
      invariant a[i..] == s[i..]
      invariant a[..j] + StripCr(s[i..]) == StripCr(s)
    {
      assert s[i..][1..] == s[i + 1..] && a[i] == a[i..][0] == s[i];
      if i + 1 < n { assert a[i + 1] == a[i..][1] == s[i + 1]; }
      if a[i] == CR && i + 1 < n && a[i + 1] == LF {
        i := i + 1;
      } else {
        ghost var before := a[..j];
        a[j] := a[i];
        assert a[..j + 1] == before + [s[i]];
        j, i := j + 1, i + 1;
      }
    }
  }

  // ---- Stripping keeps UTF-8 ------------------------------------------------------

  lemma {:induction false} StripPlain(a: bytes, b: bytes)
    requires CR !in a
    ensures StripCr(a + b) == a + StripCr(b)
  {
    if a == [] {
      assert a + b == b;
    } else {
      assert (a + b)[1..] == a[1..] + b;
      StripPlain(a[1..], b);
    }
  }

  lemma {:induction false} StripValid(s: bytes)
    requires Valid(s)
    ensures Valid(StripCr(s))
    decreases |s|
  {
    if s != [] {
      var k := Decode(s).used;
      HeadShape(s);
      var head, rest := s[..k], s[k..];
      assert s == head + rest;
      StripValid(rest);
      ValidCut(s, if rest == [] then |s| else k) by { if rest != [] { ValidHead(rest); } }
      if CR in head {
        assert k == 1 && s[0] == CR;
        assert s[1..] == rest;
        assert Valid(head);
        ValidConcat(head, StripCr(rest));
      } else {
        StripPlain(head, rest);
        ValidConcat(head, StripCr(rest));
      }
    }
  }

  // ---- Saving undoes loading --------------------------------------------------------

  lemma AllCrlfDrop(s: bytes, k: nat)
    requires AllCrlf(s) && k <= |s| && (k < |s| && k > 0 && s[k] == LF ==> s[k - 1] != CR)
    ensures AllCrlf(s[k..])
  {
    forall i | 0 <= i < |s[k..]| && s[k..][i] == LF
      ensures CrlfAt(s[k..], i)
    {
      assert CrlfAt(s, i + k);
    }
  }

  lemma FirstPlain(s: bytes)
    requires AllCrlf(s) && s != []
    ensures s[0] != LF
  {
    assert !CrlfAt(s, 0);
  }

  lemma StripPair(s: bytes)
    requires |s| > 1 && s[0] == CR && s[1] == LF
    ensures StripCr(s) == [LF] + StripCr(s[2..]) && s == [CR, LF] + s[2..]
  {
    assert s[1..][1..] == s[2..];
  }

  lemma StripOther(s: bytes)
    requires s != [] && !(s[0] == CR && |s| > 1 && s[1] == LF)
    ensures StripCr(s) == [s[0]] + StripCr(s[1..]) && s == [s[0]] + s[1..]
  {
  }

  lemma AddCrCons(b: byte, s: bytes)
    ensures AddCr([b] + s) == (if b == LF then [CR, LF] else [b]) + AddCr(s)
  {
    assert ([b] + s)[1..] == s;
  }

  lemma {:induction false} AddAfterStrip(s: bytes)
    requires AllCrlf(s)
    ensures AddCr(StripCr(s)) == s
    decreases |s|
  {
    hide AddCr, StripCr;
    if s == [] {
      NothingToStrip();
    } else if s[0] == CR && |s| > 1 && s[1] == LF {
      AllCrlfDrop(s, 2);
      AddAfterStrip(s[2..]);
      StripPair(s);
      AddCrCons(LF, StripCr(s[2..]));
    } else {
      FirstPlain(s);
      AllCrlfDrop(s, 1);
      AddAfterStrip(s[1..]);
      StripOther(s);
      AddCrCons(s[0], StripCr(s[1..]));
    }
  }

  lemma NothingToStrip()
    ensures AddCr(StripCr([])) == []
  {
  }

  /** Saving what was loaded, unedited, writes the file's bytes again. */
  lemma LoadSaveRoundTrip(raw: bytes, f: Loaded)
    requires f.Loaded? && f.bom == (BOM <= raw) && f.crlf == UniformCrlf(Body(raw))
    requires f.text == if f.crlf then StripCr(Body(raw)) else Body(raw)
    ensures Saved(f) == raw
  {
    if f.crlf { AddAfterStrip(Body(raw)); }
    if f.bom { assert raw == BOM + raw[3..]; }
  }

  // ---- Loading what was saved ---------------------------------------------------------

  /** The text a load gives, when it is not refused. */
  function Reloaded(raw: bytes): bytes {
    if UniformCrlf(Body(raw)) then StripCr(Body(raw)) else Body(raw)
  }

  lemma {:induction false} StripAfterAdd(s: bytes)
    ensures StripCr(AddCr(s)) == s
    ensures s != [] && s[0] != LF ==> AddCr(s)[0] == s[0]
    ensures s == [] ==> AddCr(s) == []
  {
    if s != [] {
      var t, r := s[1..], AddCr(s[1..]);
      StripAfterAdd(t);
      if s[0] == LF {
        assert AddCr(s) == [CR, LF] + r && AddCr(s)[1..] == [LF] + r && ([LF] + r)[1..] == r;
      } else {
        assert AddCr(s) == [s[0]] + r && AddCr(s)[1..] == r;
        if t != [] && t[0] == LF { assert r[0] == CR; }
      }
    }
  }

  lemma {:induction false} AddedLength(s: bytes)
    ensures |AddCr(s)| == |s| + Count(Newlines, s)
  {
    hide AddCr;
    if s == [] {
      NothingAdded();
    } else {
      AddedLength(s[1..]);
      AddCrCons(s[0], s[1..]);
      assert s == [s[0]] + s[1..];
      CountConcat(Newlines, [s[0]], s[1..]);
      assert [s[0]][..0] == [];
    }
  }

  lemma NothingAdded()
    ensures AddCr([]) == []
  {
  }

  lemma {:induction false} AddedUniform(s: bytes)
    ensures AllCrlf(AddCr(s))
  {
    if s != [] {
      AddedUniform(s[1..]);
      var e, r := if s[0] == LF then [CR, LF] else [s[0]], AddCr(s[1..]);
      AddCrCons(s[0], s[1..]);
      assert s == [s[0]] + s[1..];
      forall i | 0 <= i < |e + r| && (e + r)[i] == LF
        ensures CrlfAt(e + r, i)
      {
        if i >= |e| { assert CrlfAt(r, i - |e|); }
      }
    }
  }

  /** A text without newlines is written as it is. */
  lemma AddedPlain(s: bytes)
    requires LF !in s
    ensures AddCr(s) == s
  {
    AddedLength(s);
    NoHitsCount(Newlines, s);
    StripAfterAdd(s);
    AllCrlfPlain(s);
    AddAfterStrip(s);
    StripNoLf(s);
  }

  lemma AllCrlfPlain(s: bytes)
    requires LF !in s
    ensures AllCrlf(s) && !UniformCrlf(s)
  {
  }

  lemma {:induction false} StripNoLf(s: bytes)
    requires LF !in s
    ensures StripCr(s) == s
  {
    if s != [] { StripNoLf(s[1..]); }
  }

  /** A byte-order mark begins the written text exactly when it begins the text. */
  lemma MarkKept(s: bytes)
    ensures BOM <= AddCr(s) <==> BOM <= s
    ensures BOM <= s ==> AddCr(s) == BOM + AddCr(s[3..])
  {
    hide AddCr;
    if BOM <= s {
      assert s == BOM + s[3..];
      AddCrConcat(BOM, s[3..]);
      AddedPlain(BOM);
    } else if BOM <= AddCr(s) {
      NoMark(s);
    }
  }

  lemma NoMark(s: bytes)
    requires BOM <= AddCr(s)
    ensures BOM <= s
  {
    hide AddCr;
    var a := AddCr(s);
    PlainHead(s);
    PlainHead(s[1..]);
    PlainHead(s[1..][1..]);
    assert a[1] == a[1..][0] && a[2] == a[1..][1..][0];
  }

  lemma PlainHead(s: bytes)
    requires AddCr(s) != [] && AddCr(s)[0] != CR
    ensures s != [] && s[0] == AddCr(s)[0] && AddCr(s[1..]) == AddCr(s)[1..]
  {
  }

  /** Saving a text and loading the file gives the text back exactly when no
      byte-order mark is taken for the file's and no carriage returns for the
      line endings: when the file has a mark of its own or the text begins with
      none, and it is written with CRLF or its newlines are not all CRLF. */
  lemma SaveLoadRoundTrip(text: bytes, bom: bool, crlf: bool)
    ensures var raw := Saved(Loaded(text, bom, crlf));
            Reloaded(raw) == text <==> (bom || !(BOM <= text)) && (crlf || !UniformCrlf(text))
  {
    hide AddCr, StripCr, UniformCrlf;
    var raw := Saved(Loaded(text, bom, crlf));
    SavedBody(text, bom, crlf);
    if bom || !(BOM <= text) {
      ReloadedAs(text, crlf);
    } else {
      ReloadedAs(text[3..], crlf);
      if !crlf { Shorter(text[3..]); }
    }
  }

  lemma SavedBody(text: bytes, bom: bool, crlf: bool)
    ensures Body(Saved(Loaded(text, bom, crlf)))
         == Written(if bom || !(BOM <= text) then text else text[3..], crlf)
  {
    hide AddCr;
    MarkKept(text);
    var body := Written(text, crlf);
    assert (BOM + body)[3..] == body;
    if BOM <= text { assert (BOM + AddCr(text[3..]))[3..] == AddCr(text[3..]); }
  }

  lemma ReloadedAs(text: bytes, crlf: bool)
    ensures var w := Written(text, crlf);
            (if UniformCrlf(w) then StripCr(w) else w) == text <==> crlf || !UniformCrlf(text)
    ensures crlf ==> (var w := AddCr(text); (if UniformCrlf(w) then StripCr(w) else w) == text)
  {
    hide AddCr, StripCr;
    if crlf {
      StripAfterAdd(text);
      AddedUniform(text);
      if LF in text { Marked(text); } else { AddedPlain(text); }
    } else if UniformCrlf(text) {
      Shorter(text);
    }
  }

  lemma Marked(s: bytes)
    requires LF in s
    ensures UniformCrlf(AddCr(s))
  {
    hide AddCr;
    AddedUniform(s);
    var i :| 0 <= i < |s| && s[i] == LF;
    AddCrStep(s, i);
    var j := |AddCr(s[..i])| + 1;
    assert AddCr(s)[j] == LF;
    assert CrlfAt(AddCr(s), j);
  }

  /** Stripping shortens whatever it changes. */
  lemma Shorter(s: bytes)
    ensures UniformCrlf(s) ==> |StripCr(s)| < |s|
  {
    hide AddCr, StripCr;
    if UniformCrlf(s) {
      AddAfterStrip(s);
      AddedLength(StripCr(s));
      HasNewline(s);
      if Count(Newlines, StripCr(s)) == 0 {
        NoHits(Newlines, StripCr(s));
        AddedPlain(StripCr(s));
      }
    }
  }

  lemma HasNewline(s: bytes)
    requires UniformCrlf(s)
    ensures LF in s
  {
    var i :| 0 <= i < |s| && CrlfAt(s, i);
    assert s[i] == LF;
  }

  /** A text that begins with a byte-order mark, saved in a file without one. */
  lemma SaveLoadExample()
    ensures Valid(BOM + [97]) && Reloaded(Saved(Loaded(BOM + [97], false, false))) == [97]
  {
    var t: bytes := [97];
    assert BOM + t == Encode(0xFEFF) + t;
    DecodeEncode(0xFEFF, t);
    assert (BOM + t)[3..] == t && t[1..] == [];
    assert !UniformCrlf(t);
  }

  // ---- text_write --------------------------------------------------------------------

  lemma {:induction false} AddCrConcat(a: bytes, b: bytes)
    ensures AddCr(a + b) == AddCr(a) + AddCr(b)
  {
    if a == [] {
      assert a + b == b;
    } else {
      assert (a + b)[1..] == a[1..] + b;
      AddCrConcat(a[1..], b);
    }
  }

  function Written(s: bytes, crlf: bool): bytes {
    if crlf then AddCr(s) else s
  }

  /** What a file that takes `room` bytes holds of the bytes written to it. */
  function Kept(s: bytes, room: nat): bytes {
    if |s| <= room then s else s[..room]
  }

  /** An output stream; it fails once the medium is full. */
  class File {
    const room: nat
    var written: bytes

    constructor (room: nat)
      ensures this.room == room && written == []
    {
      this.room, written := room, [];
    }

    /** fwrite and fputc. */
    method Put(s: bytes) returns (ok: bool)
      requires |written| <= room
      modifies this
      ensures Puts(old(written), s, ok)
    {
      ok := |written| + |s| <= room;
      written := Kept(written + s, room);
    }

    /** s was written after w as far as it fits, and ok says whether all was. */
    predicate Puts(w: bytes, s: bytes, ok: bool)
      reads this
    {
      written == Kept(w + s, room) && ok == (|w| + |s| <= room) && |written| <= room
    }

    /** Writing two parts, the second only if the first succeeds. */
    lemma PutsFailed(w: bytes, s: bytes, more: bytes)
      requires |w| <= room && Puts(w, s, false)
      ensures Puts(w, s + more, false)
    {
      assert w + (s + more) == w + s + more;
      assert (w + s + more)[..room] == (w + s)[..room];
    }

    lemma PutsBoth(w: bytes, s: bytes, more: bytes, ok: bool)
      requires |w| + |s| <= room && Puts(w + s, more, ok)
      ensures Puts(w, s + more, ok)
    {
      assert w + (s + more) == w + s + more;
    }
  }

  /** write_piece: the in-order text, as far as the file takes it. */
  method WritePiece(t: Text, p: Piece?, f: File, crlf: bool) returns (ok: bool)
    requires Piece.Ok(p) && f !in Piece.R(p) && |f.written| <= f.room
    modifies f
    ensures f.Puts(old(f.written), Written(Flat(t.Stores(), Piece.M(p)), crlf), ok)
    decreases Piece.M(p)
  {
    hide Piece.Valid, Size, Lines, Chars, Data, AddCr, Kept;
    ghost var w, st := f.written, t.Stores();
    if p == null {
      EmptyPuts(w, f.room, crlf);
      return true;
    }
    p.Parts();
    NodeFlat(st, p.model);
    var s := t.DataOf(p);
    ghost var l, r := Flat(st, p.model.left), Flat(st, p.model.right);
    WrittenParts(l, s, r, crlf);
    ok := WritePiece(t, p.left, f, crlf);
    if !ok {
      f.PutsFailed(w, Written(l, crlf), Written(s, crlf) + Written(r, crlf));
      return;
    }
    KeptAll(w + Written(l, crlf), f.room);
    ok := WriteData(f, s, crlf);
    if !ok {
      f.PutsFailed(w + Written(l, crlf), Written(s, crlf), Written(r, crlf));
      f.PutsBoth(w, Written(l, crlf), Written(s, crlf) + Written(r, crlf), false);
      return;
    }
    KeptAll(w + Written(l, crlf) + Written(s, crlf), f.room);
    ok := WritePiece(t, p.right, f, crlf);
    f.PutsBoth(w + Written(l, crlf), Written(s, crlf), Written(r, crlf), ok);
    f.PutsBoth(w, Written(l, crlf), Written(s, crlf) + Written(r, crlf), ok);
  }

  lemma EmptyPuts(w: bytes, room: nat, crlf: bool)
    ensures |w| <= room ==> Kept(w + Written([], crlf), room) == w
    ensures Written([], crlf) == []
  {
    assert w + [] == w;
  }

  lemma KeptAll(s: bytes, room: nat)
    ensures |s| <= room ==> Kept(s, room) == s
  {
  }

  lemma WrittenParts(l: bytes, s: bytes, r: bytes, crlf: bool)
    ensures Written(l + s + r, crlf) == Written(l, crlf) + (Written(s, crlf) + Written(r, crlf))
  {
    hide AddCr;
    AddCrConcat(l, s);
    AddCrConcat(l + s, r);
    Regrouped(Written(l, crlf), Written(s, crlf), Written(r, crlf));
  }

  lemma Regrouped(a: bytes, b: bytes, c: bytes)
    ensures a + b + c == a + (b + c)
  {
  }

  /** A node's own bytes, at once or one by one. */
  method WriteData(f: File, s: bytes, crlf: bool) returns (ok: bool)
    requires |f.written| <= f.room
    modifies f
    ensures f.Puts(old(f.written), Written(s, crlf), ok)
  {
    if !crlf {
      ok := f.Put(s);
      return;
    }
    hide AddCr, Kept;
    ghost var w := f.written;
    EmptyPuts(w, f.room, true);
    ok := true;
    var i: nat := 0;
    while i < |s|
      invariant i <= |s| && f.Puts(w, AddCr(s[..i]), true)
    {
      ghost var done, rest := AddCr(s[..i]), AddCr(s[i + 1..]);
      AddCrStep(s, i);
      EndedParts(s[i], done, rest);
      KeptAll(w + done, f.room);
      if s[i] == LF {
        ok := f.Put([CR]);
        if !ok {
          f.PutsFailed(w + done, [CR], [LF] + rest);
          f.PutsBoth(w, done, [CR] + ([LF] + rest), false);
          return;
        }
        f.PutsBoth(w, done, [CR], true);
        done := done + [CR];
        KeptAll(w + done, f.room);
      }
      ok := f.Put([s[i]]);
      if !ok {
        f.PutsFailed(w + done, [s[i]], rest);
        f.PutsBoth(w, done, [s[i]] + rest, false);
        return;
      }
      f.PutsBoth(w, done, [s[i]], true);
      i := i + 1;
    }
    assert s[..i] == s;
  }

  /** What one byte becomes. */
  function Ended(b: byte): bytes {
    if b == LF then [CR, LF] else [b]
  }

  lemma AddCrStep(s: bytes, i: nat)
    requires i < |s|
    ensures AddCr(s[..i + 1]) == AddCr(s[..i]) + Ended(s[i])
    ensures AddCr(s) == AddCr(s[..i]) + (Ended(s[i]) + AddCr(s[i + 1..]))
  {
    hide AddCr, Ended;
    CutAround(s, i);
    AddCrThree(s[..i], s[i], s[i + 1..]);
  }

  lemma CutAround(s: bytes, i: nat)
    requires i < |s|
    ensures s[..i + 1] == s[..i] + [s[i]] && s == s[..i] + [s[i]] + s[i + 1..]
  {
  }

  lemma AddCrThree(x: bytes, b: byte, z: bytes)
    ensures AddCr(x + [b]) == AddCr(x) + Ended(b)
    ensures AddCr(x + [b] + z) == AddCr(x) + (Ended(b) + AddCr(z))
  {
    AddCrOne(b);
    hide AddCr, Ended;
    AddCrConcat(x, [b]);
    AddCrConcat(x + [b], z);
    Regrouped(AddCr(x), Ended(b), AddCr(z));
  }

  lemma AddCrOne(b: byte)
    ensures AddCr([b]) == Ended(b)
  {
    assert [b][1..] == [];
  }

  lemma EndedParts(b: byte, done: bytes, rest: bytes)
    ensures b == LF ==> done + [CR] + [LF] == done + Ended(b)
    ensures b == LF ==> [CR] + ([LF] + rest) == Ended(b) + rest
    ensures b == LF ==> done + [CR] + ([LF] + rest) == done + (Ended(b) + rest)
  {
  }

  /** The bytes editor_save writes for a buffer, as far as the file takes them. */
  method Write(t: Text, f: File, bom: bool, crlf: bool) returns (ok: bool)
    requires t.Valid() && f !in t.Repr && f.written == []
    modifies f
    ensures f.written == Kept(Saved(Loaded(t.Contents(), bom, crlf)), f.room)
    ensures ok == (|Saved(Loaded(t.Contents(), bom, crlf))| <= f.room)
  {
    ghost var body := Written(t.Contents(), crlf);
    ok := true;
    if bom { ok := f.Put(BOM); }
    ghost var head := if bom then BOM else [];
    hide Kept, AddCr;
    assert Saved(Loaded(t.Contents(), bom, crlf)) == head + body;
    if !ok {
      f.PutsFailed([], head, body);
    } else {
      KeptAll(head, f.room);
      assert [] + head == head;
      ok := WritePiece(t, t.root, f, crlf);
      f.PutsBoth([], head, body, ok);
    }
    assert [] + (head + body) == head + body;
  }

  /** Open a file, build its piece tree, save it to a medium with room for it:
      the bytes do not change. With less room the save fails. */
  method OpenAndSave(raw: bytes, room: nat) returns (out: bytes, ok: bool)
    requires Valid(Body(raw))
    ensures ok == (|raw| <= room) && out == Kept(raw, room)
  {
    hide Valid;
    var f := Load(raw);
    LoadSaveRoundTrip(raw, f);
    var t := new Text(f.text);
    var file := new File(room);
    ok := Write(t, file, f.bom, f.crlf);
    out := file.written;
  }
}
